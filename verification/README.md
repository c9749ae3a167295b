# NPChain: a verified model of the node's core

This Dafny project models the parts of NPChain in which most of its state and arithmetic lies, and
proves what they promise: the CDCL solver, the Keccak sponge with the Merkle tree and the random
number generator built on it, the ledger with its two concurrent writers, the file format, the wire
protocol and its sync exchange, the marketplace, governance and the rate limiters, the problem
generators with their verifiers, and the emission schedule.

Code that updates state in place is modelled by classes and loops; each method is proved against a
function of the old state, and the theorems are about those functions. The Keccak permutation, the
block hash and the generation of an instance from a hash are parameters: every result holds whatever
they compute, and no hash is assumed to be free of collisions.

## Reading order

| files | what they model |
|---|---|
| SolverState, PropagationLemmas, CdclSolver, SolverTheorems, NaivePropagation | the CDCL solver, what its invariants mean, and its agreement with the naive clause scan |
| Sponge, SpongeTheorems, Merkle, Rng | the byte-wise sponge against FIPS 202, the Merkle tree, unbiased sampling |
| Bytes, Blocks, BlockLayout, Wire | bytes and bits, the block layout and what its hash covers, batches and framed messages |
| Ledger, NodeRuns, Persistence, Sync, SyncTheorems | the chain, every interleaving of peers and miner, the file, the sync exchange |
| Marketplace, MarketplaceRuns, MarketplaceOrigins, Governance, GovernanceRuns, GovernanceNumbers, RateLimiter, TokenBucket | the state machines beside the chain |
| SatInstance, NpInstances, Shuffle, Generators, WalkSat, Emission | instances, verifiers, generators, the hybrid solver, the coin supply |
| Arith, Words, Counting | arithmetic, machine words, counting |

`dafny verify --resource-limit 2000000 --verification-time-limit 0 dfyconfig.toml` checks everything; these are
the limits the proofs are kept within.

## What the proofs found

Where code and documentation disagree, the model follows the code. In these places an expected
property does not hold; the exact condition is proved.

- The mining loop checks the limit of 50 consecutive blocks before mining; the commit under the lock
  checks height and tip again but not the limit. If a peer block with the node's own address arrives
  between the check and the reading of the height, the node's run can reach 51, from any safe state with
  49 of its blocks at the end (`NodeRuns.RaceReachesFiftyOne`, with a start in `NodeRuns.RaceHappens`).
  Everybody else stays within 50, and so does the node over a whole run exactly when each of its commits
  happens while the limit check would pass (`NodeRuns.RunKeepsLimitExactly`).
- Nothing compares a block's num_variables with its witness, but the wire carries num_variables bits. A
  good block in which they differ is accepted, and no node accepts what its holder sends on
  (`SyncTheorems.MismatchIsRefused`, `SyncTheorems.MismatchHappens`). A block comes back from the wire
  unchanged exactly if it fits it (`Wire.WireReturnsExactly`), and copying a peer's chain ends at the first
  block that does not (`SyncTheorems.ReplyCopiesPrefix`).
- An address of 2^16 bytes or more is cut to its 16-bit size on the wire. The hash does not cover the
  address, so such a block can be accepted with another address (`SyncTheorems.AcceptedCutMeans`,
  `SyncTheorems.CutHappens`).
- It is cut on disk as well, and there it always goes unnoticed: the chain loads, with rewards that belong to
  other addresses. A saved chain comes back as it was exactly if every address is below 2^16 bytes
  (`Persistence.SaveLoadRoundTrip`, `Persistence.RewardMoves`). The node takes an address of any length that
  starts with cert1.
- A restarted node has its chain but remembers height zero until a seed sync ends or it mines a block. It asks
  for blocks from the start, so with 100 blocks or more one exchange teaches it nothing
  (`SyncTheorems.Exchange`, `SyncTheorems.RestartedAsksAgain`).
- On an empty chain the peer callback takes a first block of height 1 as well as one of height 0
  (`NodeRuns.HeightOneOnEmpty`); heights match positions exactly in the second case
  (`NodeRuns.FirstBlockDecidesHeights`).
- The solver watches one-literal clauses of the instance but never propagates them
  (`CdclSolving.OneLiteralIgnored`). So after a finished propagation of the main loop the naive scan is idle
  exactly when those clauses are already true (`SolverTheorems.QuietInLoop`).
- The reported inflation rate is documented as never reaching zero. It is zero in the first year and
  after year 100000, and the supply it is computed from wraps (`Emission.RatePositiveExactly`,
  `Emission.CertsWrap`).
- A repeated vote is undone with the voter's present balance. The tallies stay right exactly when
  that balance is the earlier one (`GovernanceRuns.VoteKeepsTalliesExactly`), and over a run exactly when that
  holds of every repeated vote (`GovernanceRuns.TalliesMatchExactly`).
- Merkle roots do not determine the length of the list, and a proof that is one step short proves an
  inner node (`Merkle.RepeatedLastLeaf`, `Merkle.InnerNodeAccepted`). Which lists share a root is
  `Merkle.SameRootExactly`, and what a proof of any length proves is `Merkle.AnyProofBinds`, each up to a
  collision between strings that are hashed for the very roots and proof in question.
- Rewards are not checked and 64-bit sums wrap, the total apart from the balances. Balances and escrow add up
  to total_supply exactly when their sum is below 2^64, and modulo 2^64 always
  (`MarketplaceRuns.CertsAreConserved`). Two blocks of 2^63 by two miners break the equality; by one miner
  they do not (`MarketplaceRuns.HalvesWrapApart`).

## Model

| member | source | states |
|---|---|---|
| CdclSolving.CdclSolver.Assign | src/mining/sat_solver.cpp:84-90 | a literal becomes true at the current level with its antecedent and joins the trail; nothing else changes |
| CdclSolving.CdclSolver.Unassign | src/mining/sat_solver.cpp:92-98 | the variable is free again, its phase is remembered |
| CdclSolving.CdclSolver.FindNewWatch | src/mining/sat_solver.cpp:303-310 | the first literal past the watched two that is not false, or none |
| CdclSolving.CdclSolver.KeepRest | src/mining/sat_solver.cpp:282-283 | on a conflict the unread entries move down behind the kept ones, in order, and the list shrinks to them |
| CdclSolving.CdclSolver.SwapWatched | src/mining/sat_solver.cpp:291-293 | the falsified literal ends at position 1 while every invariant of the half-compacted list is kept |
| CdclSolving.CdclSolver.ReplaceWatch | src/mining/sat_solver.cpp:303-315 | moving a watch to another list keeps each clause index in the lists exactly as often as its first two literals ask |
| CdclSolving.CdclSolver.ScanWatchList | src/mining/sat_solver.cpp:265-332 | one pass over a watch list keeps all invariants and deals with the literal, or ends at a clause that is all false |
| CdclSolving.CdclSolver.UnitPropagate | src/mining/sat_solver.cpp:261-335 | all solver invariants survive both exits; what is added to the trail is forced; without conflict every watch on a false literal is guarded by a true one; a conflict shows an all-false clause |
| CdclSolving.CdclSolver.AnalyzeConflict | src/mining/sat_solver.cpp:360-424 | the learned clause is the negation of all assignments of the current level; the jump goes to level zero, or one level down if there are none |
| CdclSolving.CdclSolver.Backtrack | src/mining/sat_solver.cpp:426-443 | exactly the trail prefix up to the level stays; everything beyond is undone with its phase saved; the invariants hold again |
| CdclSolving.CdclSolver.PushClause | src/mining/sat_solver.cpp:142-162 | a new clause is watched by its first two literals, or its only one |
| CdclSolving.CdclSolver.AddLearnedClause | src/mining/sat_solver.cpp:445-463 | a free clause is added and watched; a one-literal clause is also assigned, with itself as antecedent |
| CdclSolving.CdclSolver.Load | src/mining/sat_solver.cpp:119-163 | a fresh state with the instance's clauses satisfies every invariant; all saved phases are negative |
| CdclSolving.CdclSolver.PickDecisionVariable | src/mining/sat_solver.cpp:337-358 | zero exactly when all variables are assigned, else an unassigned variable with its saved sign, negative by default |
| CdclSolving.CdclSolver.Decide | src/mining/sat_solver.cpp:249-254 | a new level opens with exactly this decision and no antecedent |
| CdclSolving.CdclSolver.ResolveConflict | src/mining/sat_solver.cpp:195-204 | the negation of the conflicting level is learned; it is all false before the jump and, unless it asserts its one literal, all unassigned after it; the trail falls back to level zero |
| CdclSolving.CdclSolver.Restart | src/mining/sat_solver.cpp:207-212 | after the jump to level zero a restart changes nothing |
| CdclSolving.CdclSolver.ReadSolution | src/mining/sat_solver.cpp:226-246 | a full assignment satisfies the instance; the final check fails only on an empty clause |
| CdclSolving.CdclSolver.PropagateInLoop | src/mining/sat_solver.cpp:179-191 | in every state in which the main loop calls it, unit_propagate keeps the loop invariant and, if it finishes, no clause of the whole database is false or unit, exactly as far as the instance's own one-literal and empty clauses are true; for instances with two literals a clause, always |
| CdclSolving.CdclSolver.LoadAndPropagate | src/mining/sat_solver.cpp:142-191 | the first propagation assigns nothing: every one-literal clause of the instance is left unit |
| CdclSolving.OneLiteralIgnored | src/mining/sat_solver.cpp:261-335 | for the instance with the one clause 1, the variable stays free and the clause is unit |
| CdclSolving.CdclSolver.Solve | src/mining/sat_solver.cpp:108-259 | a returned assignment satisfies the instance; giving up at level zero means the instance with the learned clauses has no model; every state that a propagation of the run leaves has a false clause or nothing left for the naive scan, up to the instance's own short clauses; each round goes on from the one before, by learning the negation of the conflicting level and falling back to level zero, or by deciding one free literal on a new level |
| PropagationLemmas.SwapFirstTwo | src/mining/sat_solver.cpp:291-293 | exchanging the two watched literals disturbs neither the watch counts nor what is settled |
| PropagationLemmas.MoveCounts | src/mining/sat_solver.cpp:303-315 | replacing the second watch removes one entry from one list and adds one to another, and so matches the permuted clause |
| PropagationLemmas.PermutedKeepsReasons | src/mining/sat_solver.cpp:292-305 | permuting literals leaves every antecedent a reason |
| PropagationLemmas.ExtendPropagated | src/mining/sat_solver.cpp:320-323 | a propagated literal extends the trail and keeps levels ordered with one decision each |
| PropagationLemmas.ExtendReasons | src/mining/sat_solver.cpp:320-323 | a forced literal keeps every antecedent a reason |
| PropagationLemmas.LevelsAroundCut | src/mining/sat_solver.cpp:427-435 | the trail prefix that backtracking keeps is exactly the entries of levels up to the target |
| PropagationLemmas.UndoneKeepsCore | src/mining/sat_solver.cpp:426-443 | undoing the entries beyond the cut keeps trail, levels and reasons consistent |
| PropagationLemmas.UndoneKeepsSettled | src/mining/sat_solver.cpp:426-443 | what was settled for the kept prefix is settled after backtracking |
| PropagationLemmas.NegatedLevelIs | src/mining/sat_solver.cpp:396-419 | the learned clause holds one false literal for every assignment of the level, in variable order, and nothing else |
| PropagationLemmas.DecisionLearned | src/mining/sat_solver.cpp:382-407 | above level zero the learned clause is not empty |
| PropagationLemmas.FreedByUndo | src/mining/sat_solver.cpp:198-204 | the learned clause is all false before the jump and all unassigned after it |
| PropagationLemmas.AddClauseWatches | src/mining/sat_solver.cpp:456-462 | appending a clause with its watch entries keeps the watch counts exact |
| SolverTheorems.SettledIsQuiet | src/mining/sat_solver.cpp:295-330 | a settled clause of two or more literals is neither false nor unit |
| SolverTheorems.FinishedMeansQuiet | src/mining/sat_solver.cpp:261-335 | after a finished propagation no clause of two or more literals is false or unit, though only the trail from its last entry on was processed; all clauses are quiet exactly when the shorter ones are true |
| SolverTheorems.QuietInLoop | src/mining/sat_solver.cpp:179-256 | after a finished propagation of the main loop all clauses are quiet exactly when the instance's own short ones are true; learned one-literal clauses always are |
| SolverTheorems.PropagationKeepsShortTrue | src/mining/sat_solver.cpp:261-335 | short learned clauses stay true at level zero through a propagation |
| SolverTheorems.UndoKeepsShortTrue | src/mining/sat_solver.cpp:426-443 | and through a jump back to level zero |
| SolverTheorems.LearningKeepsShortTrue | src/mining/sat_solver.cpp:445-463 | a learned one-literal clause is made true at level zero |
| SolverTheorems.LevelsNeverDecrease | src/mining/sat_solver.cpp:249-254 | levels never decrease along the trail and each has at most one decision |
| SolverTheorems.ModelFollowsTrail | src/mining/sat_solver.cpp:320-323 | every model of the database that agrees with the decisions agrees with the whole trail |
| SolverTheorems.ConflictExcludesModels | src/mining/sat_solver.cpp:324-329 | with a false clause, no model of the database agrees with the decisions |
| SolverTheorems.NoModelAtLevelZero | src/mining/sat_solver.cpp:187-191 | a conflict at level zero leaves the database without a model |
| SolverTheorems.FullAssignmentSatisfies | src/mining/sat_solver.cpp:226-236 | when all variables are assigned and propagation has finished, the instance is satisfied |
| NaivePropagation.NaiveSolver.Assign | tests/test_ponw_loop.cpp:292-298 | value, level, antecedent and trail entry of one literal |
| NaivePropagation.NaiveSolver.Propagate | tests/test_ponw_loop.cpp:308-332 | the clause scan ends with all clauses quiet or with a false one; every new trail entry has the current level and an antecedent that forces it; nothing else changes, and nothing at all where all is quiet |
| NaivePropagation.DerivedIsShared | tests/test_ponw_loop.cpp:308-332 | whatever is derived from a common start holds wherever all clauses are quiet |
| NaivePropagation.PropagationsAgree | tests/test_ponw_loop.cpp:308-332 | two propagations from one state, in any order and on permuted clauses, agree on whether there is a conflict and, if not, on the assignment |
| NaivePropagation.PropagateBothWays | src/mining/sat_solver.cpp:179-335 | in every state in which the main loop propagates, on instances whose clauses have two or more literals (or whose shorter ones are true), two-watched-literal propagation and the naive scan agree on whether there is a conflict and otherwise on all values and levels, and a naive scan afterwards finds nothing to do |
| Sponge.KeccakSponge.constructor | src/crypto/hash.cpp:55-59 | an empty sponge: zero state, position zero |
| Sponge.KeccakSponge.Absorb | src/crypto/hash.cpp:61-67 | the bytes are mixed in one by one, with a permutation whenever the rate is full |
| Sponge.KeccakSponge.Finalize | src/crypto/hash.cpp:69-76 | suffix and final bit are mixed in, then one permutation |
| Sponge.KeccakSponge.Squeeze | src/crypto/hash.cpp:78-89 | output and new state are those of the byte-wise stream, from a finalized sponge or after finalizing |
| SpongeTheorems.AbsorbInPieces | src/crypto/hash.cpp:61-67 | absorbing in pieces is absorbing the concatenation |
| SpongeTheorems.FinalizeIsBlocks | src/crypto/hash.cpp:61-76 | byte-wise absorption with its suffix equals block-wise absorption of the padded message, for every length, one byte below the rate and exact multiples included (sections 4 and 5.1 of FIPS 202) |
| SpongeTheorems.PaddingIsPad101 | src/crypto/hash.cpp:69-73 | bit by bit, lowest first, the bytes appended are the domain bits and pad10*1 of section 5.1 of FIPS 202, also when suffix and last bit share a byte |
| SpongeTheorems.Suffixes | src/crypto/hash.cpp:102-120 | 0x06 and 0x1F stand for the domain bits 01 and 1111 |
| SpongeTheorems.SqueezeInPieces | src/crypto/hash.cpp:78-89 | squeezing in pieces is one squeeze |
| SpongeTheorems.SqueezeIsBlocks | src/crypto/hash.cpp:78-89 | chunked squeezing equals block-wise squeezing |
| SpongeTheorems.SpongePrefix | src/crypto/hash.cpp:119-125 | a shorter output is a prefix of a longer one |
| SpongeTheorems.BytewiseIsSponge | src/crypto/hash.cpp:53-96 | absorb, finalize and squeeze together compute SPONGE[f, pad10*1, rate] for every message and output length |
| SpongeTheorems.Sha3_256 | src/crypto/hash.cpp:102-108 | the sponge at rate 136 with suffix 0x06, 32 bytes |
| SpongeTheorems.DoubleSha3 | src/crypto/hash.cpp:114-117 | the hash of the hash |
| SpongeTheorems.Shake256 | src/crypto/hash.cpp:119-125 | the sponge at rate 136 with suffix 0x1F, any length |
| SpongeTheorems.Blake3 | src/crypto/hash.cpp:127-136 | the hash of the message with the prefix byte 0xB3 |
| Merkle.MerkleRoot | src/crypto/hash.cpp:140-157 | the root by levels, odd nodes paired with themselves, and so the root of the tree from the top |
| Merkle.BuildProof | src/crypto/hash.cpp:159-182 | the siblings and sides on the way up, empty for a bad index |
| Merkle.MerkleVerify | src/crypto/hash.cpp:184-198 | accepts exactly when climbing from the leaf ends at the root |
| Merkle.RootFromTop | src/crypto/hash.cpp:140-157 | the root of one leaf is the leaf; at depth d above 0 it is the hash of the root over the first half of the 2^d positions followed by the root over the second, where a half without leaves is a copy of the half to its left |
| Merkle.DepthIsLeast | src/crypto/hash.cpp:147-155 | the number of levels is the least depth at which the leaves have room |
| Merkle.ClimbLast | src/crypto/hash.cpp:184-198 | the last step of a proof hashes the sibling before what was reached or behind it, as its side says |
| Merkle.ProofVerifies | src/crypto/hash.cpp:159-198 | the proof of any leaf of any list leads to the root |
| Merkle.ProveAndVerify | src/crypto/hash.cpp:140-198 | building a proof and verifying it succeeds for every index in range |
| Merkle.ProofBinds | src/crypto/hash.cpp:184-198 | a verifying proof of full depth shows that the leaf is in the list at the place its sides spell, or else two different strings collide that are handed back: one hashed in verifying this proof, one in making this root |
| Merkle.ProofShowsLeaf | src/crypto/hash.cpp:184-198 | so if no string of the one kind collides with one of the other, the leaf is at that place |
| Merkle.AnyProofBinds | src/crypto/hash.cpp:184-198 | a verifying proof of k steps shows the node at its spelled place k steps below the root, one longer than the tree is deep shows that what its first steps make is a leaf, or else a string hashed in verifying it collides with one hashed in making the root |
| Merkle.ProofSpells | src/crypto/hash.cpp:159-182 | the proof built for an index spells that index |
| Merkle.SameRootExactly | src/crypto/hash.cpp:140-157 | two lists of any lengths share a root if, at the lower depth of the two, they agree at every position of the full tree, and only then, or else a string hashed in making one root collides with one hashed in making the other |
| Merkle.RootShowsLeaves | src/crypto/hash.cpp:140-157 | so if no such strings collide, equal roots mean exactly that agreement, and equality for lists of one length |
| Merkle.RootBinds | src/crypto/hash.cpp:140-157 | lists of one length with one root are equal, or else a string hashed in making one root collides with one hashed in making the other |
| Merkle.RepeatedLastLeaf | src/crypto/hash.cpp:147-153 | lists of three and four leaves with one root, for any hash |
| Merkle.InnerNodeAccepted | src/crypto/hash.cpp:184-198 | dropping the first step of a proof proves the node above the leaf |
| Rng.DeterministicRNG.NextU64 | src/crypto/hash.cpp:219-225 | the words come in the order of the expanding stream, little-endian |
| Rng.DeterministicRNG.ExpandState | src/crypto/hash.cpp:210-217 | the next buffer is made from the next counter and the old buffer |
| Rng.DeterministicRNG.NextBounded | src/crypto/hash.cpp:227-231 | the remainder of the first word at or above the threshold; zero without a draw for bound zero |
| Rng.Threshold | src/crypto/hash.cpp:229 | the wrapped expression (~bound + 1) % bound is 2^64 mod bound |
| Rng.Unbiased | src/crypto/hash.cpp:227-231 | every residue below the bound has exactly (2^64 - threshold) / bound accepted words |
| Bytes.PackBits | src/p2p.hpp:88-91 | the loop sets exactly the bits of the witness, lowest bit first, padding zero |
| Bytes.UnpackBits | src/p2p.hpp:132-134 | the loop reads exactly the wanted bits back |
| Bytes.UnpackPacked | src/p2p.hpp:86-134 | unpacking inverts packing |
| Bytes.PackUnpacked | src/p2p.hpp:86-134 | packing what was unpacked gives the same bytes exactly when the padding bits are zero |
| Blocks.ParseEncoded | src/testnet_node.cpp:313-341 | reading an encoded block gives the block and its length, whatever follows |
| Blocks.EncodeParsed | src/testnet_node.cpp:368-398 | writing a parsed block with some bits gives the parsed bytes exactly when they are its bits and the padding is zero |
| BlockLayout.LittleEndian | src/testnet_node.cpp:205-208 | the bytes of a stored number and their weights, lowest first |
| BlockLayout.BitWeights | src/p2p.hpp:88-91 | the bits of a packed byte and their weights, lowest first |
| BlockLayout.SerializedAt | src/testnet_node.cpp:202-224 | what is hashed is 136 bytes long and holds the ten fields at the literal offsets 0, 4, 12, 44, 76, 84, 88, 92, 96 and 128 |
| BlockLayout.EncodedAt | src/p2p.hpp:67-100 | what is stored and sent, by literal offsets: the same 136 bytes, the hash at 136, the number of bits at 168, the bits from 172, the size of the address and the address |
| BlockLayout.SerializedExactly | src/testnet_node.cpp:202-224 | two blocks are hashed from the same bytes exactly if they agree in all ten fields, the reward included |
| BlockLayout.TipBindsChain | src/testnet_node.cpp:202-292 | two linked chains of one length with one tip hash agree in those fields at every block, or else two different strings, hashed for blocks at the same place, collide |
| Wire.BlockToWire | src/p2p.hpp:67-100 | the layout: eleven fixed fields, num_variables bits, the address |
| Wire.WireToBlock | src/p2p.hpp:102-145 | exactly the blocks within the limits of 10000 bits and 200 bytes of address, read in order; trailing bytes are ignored |
| Wire.WireRoundTrip | src/p2p.hpp:67-145 | decoding inverts encoding whenever the witness has num_variables bits and both limits hold |
| Wire.WireYields | src/p2p.hpp:67-145 | what is decoded from the wire of any block: num_variables bits and the address up to its 16-bit size, or nothing if a size field is over its limit |
| Wire.WireReturnsExactly | src/p2p.hpp:67-145 | a block comes back unchanged exactly if its witness has num_variables bits and both limits hold |
| Wire.WireReencodes | src/p2p.hpp:67-145 | re-encoding a decoded wire gives the consumed bytes exactly when the two size fields agree and the padding is zero |
| Wire.BuildBatch | src/p2p.hpp:351-363 | the payload of a BLOCKS message |
| Wire.ReadBatch | src/p2p.hpp:441-470 | the blocks a BLOCKS payload offers, in order: undecodable items are skipped, a bad length ends the batch |
| Wire.BatchArrives | src/p2p.hpp:351-470 | what is decoded from the batch of any blocks: unreadable ones are missing, one over 100000 bytes ends it |
| Wire.AllArriveExactly | src/p2p.hpp:351-470 | all blocks arrive unchanged exactly if each fits the wire |
| Wire.BatchRoundTrip | src/p2p.hpp:351-470 | a batch of blocks that fit the wire is decoded to the same blocks |
| Wire.StreamRoundTrip | src/p2p.hpp:149-157 | framed messages are read back in order |
| Wire.FrameArrivesExactly | src/p2p.hpp:517-533 | a message is read back exactly if it is within 10000000 bytes; above that it is lost |
| Wire.Socket.RecvExactly | src/p2p.hpp:369-378 | exactly the wanted bytes, however the socket cuts them, or failure at the end of the stream |
| Wire.PeerRecvLoop | src/p2p.hpp:517-533 | the loop handles the messages of the whole byte sequence, however it arrives |
| Ledger.ChainState.AddBlock | src/testnet_node.cpp:282-292 | accepts height tip + 1 or 0 with the right parent, stores the computed hash, credits supply and balance with wrap-around |
| Ledger.ChainState.OnPeerBlock | src/testnet_node.cpp:1977-2032 | the callback's decision and the chain after it |
| Ledger.ChainState.Commit | src/testnet_node.cpp:2127-2138 | the re-check of height and tip under the lock and the chain after it |
| Ledger.CheckConsecutive | src/testnet_node.cpp:698-709 | true exactly when fewer than 50 blocks at the end are the miner's |
| Ledger.RunsWithinMeans | src/testnet_node.cpp:685-709 | bounded trailing runs at every length are the same as no limit + 1 consecutive blocks anywhere |
| Ledger.AppendRuns | src/testnet_node.cpp:698-709 | a block keeps every run within the limit exactly when its miner's trailing run is below it |
| Ledger.AppendKeepsLinked | src/testnet_node.cpp:282-292 | a block with the next height, the tip and a good witness keeps heights, parents, hashes and witnesses right |
| Ledger.AppendKeepsAccounts | src/testnet_node.cpp:288-289 | supply stays the sum of rewards and each balance the sum of that miner's, in 64 bits |
| NodeRuns.Perform | src/testnet_node.cpp:2097-2138 | one step of peer or miner through the chain's methods is the step of the state machine |
| NodeRuns.Replay | src/testnet_node.cpp:1977-2138 | a whole interleaving through the methods is the run of the state machine |
| NodeRuns.StepSafe | src/testnet_node.cpp:1977-2138 | one step of peer or miner keeps the chain safe and append-only |
| NodeRuns.RunSafe | src/testnet_node.cpp:1977-2138 | in every interleaving the chain is append-only, linked, its accounts right, others within 50 in a row and the node within 51 |
| NodeRuns.CommitKeepsLimitExactly | src/testnet_node.cpp:2127-2138 | a commit keeps the limit of 50 exactly when the limit check would pass at that moment |
| NodeRuns.RunKeepsLimitExactly | src/testnet_node.cpp:2097-2138 | over every interleaving the node stays within 50 in a row exactly when each of its commits happens while the limit check would pass |
| NodeRuns.UndisturbedRunKeepsLimit | src/testnet_node.cpp:2097-2138 | unless a peer block with the node's address arrives between check and height, nobody gets more than 50 in a row |
| NodeRuns.RaceAddsTwo | src/testnet_node.cpp:2101-2138 | from any safe state in which the check passes, the race lets two blocks of the node through |
| NodeRuns.RaceReachesFiftyOne | src/testnet_node.cpp:2101-2138 | from any safe state with 49 blocks of the node at the end, the race makes it 51 |
| NodeRuns.RaceHappens | src/testnet_node.cpp:2101-2138 | such a state and two such blocks |
| NodeRuns.GenesisIsSafe | src/testnet_node.cpp:1982-1998 | a genesis block on an empty chain is a safe start |
| NodeRuns.FirstBlockDecidesHeights | src/testnet_node.cpp:1982-2003 | the first block has height 0 or 1, and the chain is linked exactly for 0 |
| NodeRuns.HeightOneOnEmpty | src/testnet_node.cpp:2000-2003 | a block of height 1 that an empty chain accepts |
| Persistence.SaveToDisk | src/testnet_node.cpp:300-346 | magic, version, count and all blocks, with sizes cast to 32 and 16 bits |
| Persistence.LoadBlock | src/testnet_node.cpp:369-442 | one block is read and appended exactly when hash, parent, height and witness check out |
| Persistence.LoadFromDisk | src/testnet_node.cpp:349-447 | whatever the bytes, success means a linked chain with verified witnesses, supply the sum of rewards and balances those of the miners |
| Persistence.LoadedIsGood | src/testnet_node.cpp:368-443 | each loaded block keeps the chain linked and the accounts right, and the count is met |
| Persistence.SaveLoadRoundTrip | src/testnet_node.cpp:300-447 | for every valid reward-only chain, loading what was saved succeeds and gives the same chain with each address cut to its 16-bit size, and the same supply; it gives back the blocks, supply and balances exactly if every address is below 2^16 bytes |
| Persistence.RewardMoves | src/testnet_node.cpp:339-341 | a genesis with reward 5 and an address of 65536 bytes is saved and loaded, and the reward belongs to the empty address |
| Persistence.SaveThenLoad | src/testnet_node.cpp:300-447 | the same through the two methods, with the same condition |
| Sync.P2PManager.HandleHello | src/p2p.hpp:382-430 | what is remembered of the peer; blocks are asked for exactly when it claims more height and the back-off has passed; one HELLO back |
| Sync.BackoffDoubles | src/p2p.hpp:410-411 | the wait is one second without failures, doubles with each of the first four, and is 30 seconds from the fifth on |
| Sync.HelloReadsBack | src/p2p.hpp:320-394 | the receiver of a HELLO finds height, tip, port and address where the sender put them, at the literal offsets 0, 8, 40 and 44; the address as far as its 16-bit size says |
| Sync.P2PManager.GetChain | src/testnet_node.cpp:2033-2040 | up to 100 blocks from the wanted position |
| Sync.P2PManager.HandleGetBlocks | src/p2p.hpp:346-367 | one BLOCKS message with those blocks, or none if there are none |
| Sync.P2PManager.HandleBlocks | src/p2p.hpp:441-484 | every decoded block goes to the callback in order; height, tip and failure count follow |
| Sync.P2PManager.HandleNewBlock | src/p2p.hpp:486-500 | a decodable block goes to the callback |
| Sync.P2PManager.HandleMessage | src/p2p.hpp:380-515 | whatever a peer sends, the chain changes only by accepted blocks of BLOCKS and NEW_BLOCK messages; what is sent back and what is remembered of the peer for each kind of message |
| SyncTheorems.TakeNext | src/testnet_node.cpp:1977-2032 | holding a prefix of an honest chain, a block of it that we have or need next is taken exactly when it is the next one |
| SyncTheorems.TakeStretch | src/p2p.hpp:451-469 | taking a stretch of an honest chain copies what was missing and skips what was held, a repeated genesis included |
| SyncTheorems.TakeArriving | src/p2p.hpp:441-469 | taking what arrives of a stretch of any honest chain copies it up to the first block that does not come through |
| SyncTheorems.ReplyCopiesPrefix | src/p2p.hpp:346-470 | for every honest chain, the reply to a request from a reached position leaves the peer's blocks up to max(held, s), where s is min(length, from + 100) or the first block before it that does not fit the wire; exactly so unless that block is accepted with its address cut |
| SyncTheorems.FittingReply | src/p2p.hpp:346-470 | if all blocks fit the wire nothing stops the reply, and it is within the message size limit |
| SyncTheorems.AcceptedCutMeans | src/p2p.hpp:94-97 | a block that does not fit is accepted all the same exactly if only its address is too long, by 2^16 bytes or more, and its cut form passes the readers' limit and the limit on runs |
| SyncTheorems.CutHappens | src/p2p.hpp:94-97 | a block with an address of 65536 bytes arrives with an empty one and is accepted |
| SyncTheorems.MismatchIsRefused | src/p2p.hpp:85-92 | what is sent of a good block whose witness has not num_variables bits is accepted by no node, whatever it holds |
| SyncTheorems.MismatchHappens | src/testnet_node.cpp:1977-2032 | such a block that arrives, is accepted as genesis and makes an honest chain |
| SyncTheorems.StartIsReached | src/p2p.hpp:414 | no node asks from beyond its chain; one whose remembered height is right asks from its own length, or from 0 with only a genesis block |
| SyncTheorems.Exchange | src/p2p.hpp:382-484 | HELLO, GET_BLOCKS and BLOCKS, the reply through the framing, between nodes that remember at most their real height, with an honest peer that extends our chain: asked exactly when it claims more height than we remember and the back-off has passed; then what the reply copies, or nothing if the reply is over the message limit. If all blocks fit the wire, the peer's first max(held, end of the reply) blocks, which is more than before exactly if the reply ends beyond our chain, and always if we remember our height; and afterwards we know the peer's height, tip, port and address as it knows them itself |
| SyncTheorems.RestartedAsksAgain | src/p2p.hpp:317-414 | a node that remembers nothing asks from 0, and the reply ends beyond its chain exactly if it holds fewer than 100 blocks and fewer than the peer |
| Marketplace.MarketplaceState.SubmitJob | src/testnet_node.cpp:972-999 | the conditions on balance, title and bounty, and the job posted |
| Marketplace.MarketplaceState.OnSubmit | src/testnet_node.cpp:1701-1706 | a posted job takes its bounty from the balance; a refused one changes nothing |
| Marketplace.MarketplaceState.OnSolve | src/testnet_node.cpp:1002-1027 | the first active job with the id gets the solution unless its deadline has passed |
| Marketplace.MarketplaceState.ProcessHeight | src/testnet_node.cpp:1030-1052 | every job is settled in turn: refund, award or nothing |
| Marketplace.BestIsEarliestMinimal | src/testnet_node.cpp:947-954 | the best solution is the earliest of those with the lowest score, and only that one |
| Marketplace.BestSolution | src/testnet_node.cpp:947-954 | the loop finds it |
| Marketplace.ProcessedJobs | src/testnet_node.cpp:1030-1052 | exactly the active jobs whose deadline is reached are closed |
| MarketplaceRuns.Replay | src/testnet_node.cpp:972-1052 | running the actions through the two classes is the run of the state machine |
| MarketplaceRuns.SettleGood | src/testnet_node.cpp:1031-1050 | settling a job keeps balances, escrow and counters in agreement |
| MarketplaceRuns.RunGood | src/testnet_node.cpp:972-1052 | every run keeps jobs, balances, escrow and counters in agreement |
| MarketplaceRuns.CertsAreConserved | src/testnet_node.cpp:972-1052 | after any run balances and open bounties add up to total_supply exactly when their sum is below 2^64, in particular while the rewards are, and modulo 2^64 always |
| MarketplaceRuns.HalvesWrapApart | src/testnet_node.cpp:282-292 | two blocks of reward 2^63: by two miners the balances add up to 2^64 and total_supply is 0, by one miner both are 0 |
| MarketplaceRuns.BountiesArePaidOnce | src/testnet_node.cpp:1030-1052 | each balance is rewards plus bounties received less bounties posted, total_bounties_paid is the completed jobs' bounties, and every winner was the earliest of the best |
| MarketplaceRuns.RunBecomes | src/testnet_node.cpp:1002-1052 | a job's terms never change, solutions are only added, and a closed job stays as it is |
| MarketplaceOrigins.JobsComeFromRequests | src/testnet_node.cpp:972-999 | the jobs of a run are its granted requests, one for one and in order, each with its title, submitter, bounty, height, number and deadline |
| MarketplaceOrigins.SolutionsComeFromOffers | src/testnet_node.cpp:1002-1027 | the solutions of every job are the offers that the run made for it, one for one and in order, with their solver, score, data and height, none after the deadline; an offer is for the first open job with its number |
| MarketplaceOrigins.WinnerSentBestOffer | src/testnet_node.cpp:947-1052 | the winner of a completed job is who sent the earliest of the lowest-scored offers that the run made for it |
| MarketplaceOrigins.ProcessClosesDue | src/testnet_node.cpp:1030-1052 | processing leaves no job open whose deadline the chain has reached, and the others as they are |
| MarketplaceOrigins.ClosedAtDeadline | src/testnet_node.cpp:1030-1052 | every job that is not open was closed by one processing step of the run, when the chain had reached its deadline |
| MarketplaceRuns.OpeningIsGood | src/testnet_node.cpp:349-447 | any linked chain with right accounts, a loaded one for example, is a good start |
| Governance.GovernanceState.SubmitProposal | src/testnet_node.cpp:548-573 | the conditions and the proposal posted |
| Governance.GovernanceState.CastVote | src/testnet_node.cpp:576-607 | the first active proposal with the id is voted on, undoing an earlier vote with the present balance |
| Governance.GovernanceState.ProcessHeight | src/testnet_node.cpp:610-639 | proposals are closed, then activated, by height |
| GovernanceRuns.Replay | src/testnet_node.cpp:543-639 | running the class is running the events |
| GovernanceRuns.StatusMovesForward | src/testnet_node.cpp:610-639 | one event moves a status only forward and changes tallies only while voting is open |
| GovernanceRuns.StatusMovesForwardInRun | src/testnet_node.cpp:543-639 | the same between any two moments of a run; tallies are frozen after ACTIVE |
| GovernanceRuns.ClosedForAReason | src/testnet_node.cpp:610-630 | a proposal that is not ACTIVE was moved from ACTIVE by one event of the run, at vote_end_height or later; it passed exactly if its final tallies met both thresholds under the supply of that event, and expired exactly if participation was too low |
| GovernanceRuns.ActivatedForAReason | src/testnet_node.cpp:633-638 | an ACTIVATED proposal was made so by one event of the run, at its activation height or later |
| GovernanceNumbers.SubmitAdds | src/testnet_node.cpp:548-573 | the conditions of a proposal and its terms in numbers: 240 blocks of voting, activation 120 blocks later |
| GovernanceNumbers.ProcessDecides | src/testnet_node.cpp:519-639 | closing in integers: passed exactly if there are votes for or against with 4 * approve >= 3 * (approve + reject), and 10 * all votes >= 7 * supply > 0; expired exactly if the last fails; then activation |
| GovernanceNumbers.ProcessLeavesNothingDue | src/testnet_node.cpp:610-639 | after processing no proposal at its end is ACTIVE and none at its activation height is PASSED |
| GovernanceNumbers.DecidedInNumbers | src/testnet_node.cpp:519-630 | over runs: every proposal that is not ACTIVE was closed by one event, with the outcome that its final tallies and the supply of that event have in these numbers |
| GovernanceNumbers.DecidedByBalances | src/testnet_node.cpp:519-630 | over runs without changed balances, the outcome is that of the balances behind each choice |
| GovernanceRuns.VoteKeepsTalliesExactly | src/testnet_node.cpp:585-602 | a vote keeps the tallies equal to the weights exactly when it is the voter's first or its balance is unchanged |
| GovernanceRuns.TalliesMatchInRun | src/testnet_node.cpp:576-607 | over any run with unchanged balances, each tally is the sum of the weights of those whose latest choice it is |
| GovernanceRuns.TalliesMatchExactly | src/testnet_node.cpp:576-607 | over any run, the tallies are right at every moment exactly if every repeated vote is cast with the balance of the earlier one |
| GovernanceRuns.ChangedBalanceWraps | src/testnet_node.cpp:586-593 | an approval of 10 re-voted with 20 leaves the approvals at 2^64 - 10 |
| RateLimiting.RateLimiter.Allow | src/testnet_node.cpp:1194-1242 | the answer and the new record of the address; other records stay, except that above 10000 aged ones go until 5000 are left or none is aged |
| RateLimiting.RateLimiter.Count | src/testnet_node.cpp:1198-1226 | ban, window and count of one address, and the answer |
| RateLimiting.RateLimiter.Evict | src/testnet_node.cpp:1229-1239 | only records older than 300 seconds are dropped, until half the limit is reached or none is left to drop |
| RateLimiting.AgedIsFresh | src/testnet_node.cpp:1229-1239 | an aged record answers and goes on like no record |
| RateLimiting.SimulationStep | src/testnet_node.cpp:1194-1242 | after each request the evicting limiter agrees with one that never evicts |
| RateLimiting.ServeAll | src/testnet_node.cpp:1194-1242 | for every time-ordered request sequence all answers are those of the limiter that never evicts |
| RateLimiting.WindowAccounting | src/testnet_node.cpp:1209-1226 | the current record bounds the allowed requests of every window of its address |
| RateLimiting.SinceAccounting | src/testnet_node.cpp:1209-1226 | and those of the 60 seconds from any moment on |
| RateLimiting.LimitsHold | src/testnet_node.cpp:1209-1226 | no address gets more than 120 requests in a window or 240 in any 60 seconds |
| RateLimiting.ModestIsServed | src/testnet_node.cpp:1194-1242 | an address that never sends more than 120 requests in 60 seconds is never refused |
| RateLimiting.BanHasReason | src/testnet_node.cpp:1217-1221 | the request that begins a ban comes after 120 allowed ones in the same 60 seconds |
| RateLimiting.BanBegan | src/testnet_node.cpp:1201-1221 | a request is refused only less than 60 seconds after a ban of its address began |
| RateLimiting.BanLastsExactly | src/testnet_node.cpp:1201-1207 | from the request that begins a ban on, the address is refused for 60 seconds, and the first request after that is allowed |
| TokenBuckets.TokenBucket.Consume | deploy/shield/proxy.cpp:85-96 | refill up to the maximum, then take n if there are n |
| TokenBuckets.TokenBucket.ConsumeAll | deploy/shield/proxy.cpp:85-96 | any requests, one after the other, are answered as the run says |
| TokenBuckets.TokenBucket.FilterRate | deploy/shield/proxy.cpp:209-219 | both limits are overwritten, then one token is taken |
| TokenBuckets.GrantBound | deploy/shield/proxy.cpp:85-96 | for any maximum, refill rate and request sizes, from any request on the tokens granted and left are at most a full bucket and the refill of the interval |
| TokenBuckets.AtMostBurstPlusRefill | deploy/shield/proxy.cpp:85-96 | at most max_tokens + refill_rate * (t2 - t1) tokens are granted in any interval |
| TokenBuckets.LeftOver | deploy/shield/proxy.cpp:85-96 | while all requests are granted, the tokens left are the least of what the bounds from the start and from each request leave |
| TokenBuckets.GrantedExactly | deploy/shield/proxy.cpp:85-96 | all requests of a run are granted exactly if up to each of them no more is asked for than the bucket held and earned, and from no request on more than a full bucket and the refill since |
| TokenBuckets.FilterRateBound | deploy/shield/proxy.cpp:209-219 | so filter_rate lets at most rate + rate * (t2 - t1) messages through |
| SatInstances.Verify | src/consensus/ponw_engine.cpp:291-310 | the loop accepts exactly when every clause has a true literal before any literal out of range |
| SatInstances.WellFormedAccepts | src/consensus/ponw_engine.cpp:291-310 | on well-formed instances that is: the assignment satisfies the instance |
| NpInstances.VerifySubsetSum | src/consensus/ponw_engine.cpp:312-329 | accepts exactly the non-empty choices of different positions, of the required size, whose 64-bit sum is the target |
| NpInstances.VerifyColoring | src/consensus/ponw_engine.cpp:331-344 | accepts exactly the proper colourings |
| NpInstances.VerifyHamiltonian | src/consensus/ponw_engine.cpp:346-375 | accepts exactly the permutations of all vertices whose consecutive pairs are edges |
| NpInstances.EdgeKeyInjective | src/consensus/ponw_engine.cpp:362 | 64-bit edge keys are equal exactly for the same undirected edge |
| Generators.GenerateSat | src/consensus/ponw_engine.cpp:101-159 | what is drawn from the stream is the planted assignment and then clauses; the clauses are those drawn that the planted assignment satisfies, until there are enough or the attempts run out; so it solves the instance for every stream |
| Generators.GenerateSubsetSum | src/consensus/ponw_engine.cpp:161-195 | elements, size and order are those drawn; the planted positions, the first of the shuffled ones, solve the instance, also when the sum wraps |
| Generators.GenerateGraphColor | src/consensus/ponw_engine.cpp:197-236 | what is drawn is the planted colouring and then pairs; the edges are, in order, the first occurrences of drawn pairs with different ends and colours, smaller end first, until there are enough or three tries an edge have been made; so the planted colouring is proper |
| Generators.GenerateHamiltonian | src/consensus/ponw_engine.cpp:238-281 | the edges are those of the drawn path and then the first occurrences of drawn pairs with different ends, until there are enough or ten tries an edge have been made; so the path is Hamiltonian |
| Generators.SameDrawsSameSat | src/consensus/ponw_engine.cpp:101-159 | the record of the draws determines assignment and clauses: whoever draws the same gets the same instance |
| Generators.SameDrawsSameGraph | src/consensus/ponw_engine.cpp:197-281 | and the same pairs, and so the same graph |
| Shuffling.FisherYates | src/consensus/ponw_engine.cpp:183-186 | the loop performs the exchanges of its draws |
| Shuffling.DrawSteps | src/consensus/ponw_engine.cpp:183-186 | one draw for each position from the last down to the second, in that order |
| Shuffling.ShufflePermutes | src/consensus/ponw_engine.cpp:183-186 | the result is a permutation |
| Shuffling.ShuffleInjective | src/consensus/ponw_engine.cpp:183-186 | different draws give different permutations |
| Shuffling.ShuffleSurjective | src/consensus/ponw_engine.cpp:183-186 | every permutation comes from some draws |
| WalkSat.GreedyPick | src/testnet_node.cpp:147-164 | the pick is the first of those that break the fewest clauses, and every trial flip is taken back |
| WalkSat.FlipOnce | src/testnet_node.cpp:140-168 | the draws of one flip and the flip they make |
| WalkSat.FlipRounds | src/testnet_node.cpp:127-171 | each flip is in the first broken clause, of a random literal for dice below 30 of 100 and else of the best; a try ends with a witness, or after five flips a variable none of which reached one |
| WalkSat.SolveSat | src/testnet_node.cpp:109-174 | any returned assignment satisfies the instance; it gives up only after as many whole tries as it may make, all draws accounted for |
| Emission.SupplyIsSumOfRewards | include/core/transaction.hpp:131-142 | cumulative_supply is min(2^64 - 1, sum of all rewards below the height), for all heights |
| Emission.AnyYearEmitsTheCap | include/core/transaction.hpp:119-127 | any BLOCKS_PER_YEAR consecutive heights emit exactly the annual cap |
| Emission.CheckedChainStaysBelow | src/consensus/ponw_engine.cpp:525-529 | a chain that passes the coinbase check mints at most the schedule |
| Emission.CheckedWindowStaysBelow | src/consensus/ponw_engine.cpp:525-529 | within any year's worth of blocks it mints at most the annual cap |
| Emission.ScheduleIsReached | src/consensus/ponw_engine.cpp:525-529 | of the chains that pass the check exactly those whose every coinbase is the full reward mint the schedule |
| Emission.FullChainPasses | src/consensus/ponw_engine.cpp:525-529 | for every length there is such a chain: the full reward passes, one base unit more does not |
| Emission.RatePositiveExactly | include/core/transaction.hpp:152-157 | exactly when the reported rate is above zero, and its value until the supply wraps |
| Emission.CertsWrap | include/core/transaction.hpp:145-149 | a height at which the supply in Certs shrinks |

## Left out

- CdclSolving.CdclSolver.PickDecisionVariable: does not model the activities, so any unassigned variable may be picked; the floating-point scores only order the choice.
- CdclSolving.CdclSolver.Solve: does not model the clock and the cancel flag, which become a bound on rounds, nor the restart schedule, which becomes a free choice because a restart changes nothing.
- CdclSolving.CdclSolver.AddLearnedClause: does not keep the second copy of learned clauses nor its reduction, which the search never reads.
- Unsatisfiability: the learned clauses negate whole levels and need not follow from the instance, so giving up says nothing about the instance alone.
- CdclSolving.CdclSolver.ScanWatchList: treats a false one-literal clause as the code does, but the branch for one that is not false cannot be reached from a false watched literal and is left out; keeping an entry and assigning its literal happen in the other order, which nothing can observe.
- Rng.DeterministicRNG.NextBounded: gives up after a chosen number of rejected words, because the source's loop has no bound; next_bytes and next_bool are not modelled beyond arbitrary coins.
- Generators.GenerateSat: takes draws of any stream, recorded bound by bound, instead of the words of the seeded one, and sizes as parameters with the lower bounds of difficulty_to_size, whose logarithms are floating point; the same holds for the other three generators. Their 32-bit edge counts are not wrapped.
- NpInstances.VerifyHamiltonian: assumes that vertex numbers fit 32 bits, as their type says.
- SHA-3 inside: the rounds of the Keccak permutation are not modelled.
- Persistence.LoadFromDisk: treats a file that ends early as a failure; what uninitialised header bytes would do, and witness sizes from 7 below 2^32 on, are not modelled. The state after a failed load is not described.
- Persistence.SaveLoadRoundTrip: assumes fewer than 2^64 blocks and witnesses of at most 2^32 - 8 bits; num_variables is a 32-bit number, and from 7 below 2^32 on the source's rounding of the size to bytes wraps.
- Persistence.SaveToDisk: marketplace and governance are not saved by the source either, so balances changed by jobs are not restored.
- NodeRuns.RunSafe: assumes that the chain does not fill 64-bit heights; reading height and tip are separate steps, while single reads are atomic.
- SyncTheorems.Exchange: covers one exchange; convergence of repeated exchanges is not claimed, since one HELLO yields at most one batch. The peer's answer to our HELLO and other peers' messages in between are not part of it, and HELLO and GET_BLOCKS are taken as delivered.
- SyncTheorems.ReplyCopiesPrefix: assumes that the reply is below 4 GiB, so that no 32-bit length wraps, and, when we hold nothing and the genesis block does not fit the wire, that the genesis hash is not all zeros, the value that stands for no block.
- Sync.P2PManager.HandleBlocks: decodes the whole batch before offering its blocks; decoding does not depend on the chain.
- Sync.P2PManager.HandleHello: models the steady clock in whole seconds.
- RateLimiting.RateLimiter.Evict: looks at the records in any order, where the source goes by address.
- RateLimiting.RateLimiter.Allow: uses one clock in whole seconds for both of the source's clocks and does not cut the ban's end to 32 bits.
- TokenBuckets.TokenBucket.Consume: uses exact reals for the floating-point tokens.
- Governance.GovernanceState.ProcessHeight: uses exact rationals for the floating-point rates.
- Marketplace.MarketplaceState.OnSubmit: treats balance check, posting and debit as one step, which the source does without a lock; scores are exact reals, so a NaN is not modelled; type, description and problem text of a job are not carried.
- WalkSat.SolveSat: assumes a well-formed instance without empty clauses, which the generator guarantees; the clock becomes a bound on tries, and the random numbers are those of any stream.
- Stake check: the minimum stake is zero, so it always passes.
- Sockets, threads, HTTP, JSON, the wallet, the faucet, the web pages and deployment.
- src/mainnet_node.cpp and src/chain_validator.cpp, which repeat this logic with other constants.
- Dilithium, Kyber, commitments and the header-only modules without an implementation.
