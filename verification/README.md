# Verified core of a post-quantum BFT chain

This project models, in Dafny 4.11, the parts of the pyde-net chain whose correctness
rests on reasoning across several functions or a whole run, and proves what they promise.
`dafny verify dfyconfig.toml` checks everything.

**Consensus.** A validator answers proposals through `create_vote`, which only ever moves
its last vote forward in (slot, view). Quorum certificates are bitmaps with one signature
per set bit. `Certificates` proves that forming and checking certificates fit each other;
`Voting` runs a committee of honest members against an arbitrary network and arbitrary
faulty members and proves agreement per slot and view; `CrossView` says what a run lets the
committee certify and why the view belongs in the statement. `ViewChange` shows that a view-change certificate cannot lose
progress and what the certificate it carries is worth, `Finality` and `HardFinality` that
hard finality is permanent and certified.

**Distributed key generation.** `Interpolation` builds arithmetic modulo a prime and
Lagrange interpolation from nothing. `Shamir`, `MasterSecret` and `Secrecy` prove that any
quorum of master shares recovers the sum of the contributors' secrets and that fewer
shares fit every secret. `Trees` and `Merkle` prove that generated proofs verify and that
accepted proofs bind. `Codecs`, `Envelopes`, `Contribution` and `Complaints` follow a share
from its contributor to its recipient and to a public verdict; `Ceremony` puts a whole key
generation together, from seeds to the recovered secret; `Consistency` says what it is worth
when a contributor deals rows that lie on no polynomial.

**Ahead-of-time compilation.** `Isa` has the arithmetic of both machines, `BasicBlocks` cuts
bytecode into blocks. `Metering` holds the two machines: the interpreter, which charges gas
per instruction, and the emitted code, which charges a block at its entry. `Simulation` and
`CompiledBlocks` prove that the second means what the first means, for limited and for
unlimited gas; `Divergence` shows where they part and exactly when they do not; `Machines`
runs both step by step.

**Account nonces, mempool, epoch randomness, hashing input.** `Nonce` proves the 16-bit
window to be a set. `RoundRobin` and `BlockBuilder` characterise transaction selection up
to uniqueness, `Ordering` the shuffle, `Inclusion` the audit of a proposer's block,
`EpochRandomness` the canonical combination of shares, and `Packing` the byte packing in
front of the hash.

Signatures, the hash function and the key-encapsulation mechanism are parameters: arbitrary
functions, with the needed correctness stated as a precondition. A hash is assumed free of
collisions only on the finite set of inputs that the statement at hand really hashes
(`Bytes.InjectiveOn`). A signature verifies under an honest key only if that member signed
those bytes. Decapsulation undoes encapsulation, as sections 7.2 and 7.3 of FIPS 203 define
them. The field is the integers modulo a prime `p`; Goldilocks is one instance.

Where the program and its documentation disagree, the model follows the program:

- The invariants document says a vote at or below the locked height is rejected. The voting
  rule compares certificates only. `Voting.RefusesOldHeightsIff` gives the exact condition.
- A certificate with an empty bitmap and no signatures passes verification whatever its slot
  (`Certificates.VerifyQc`). `Voting.SentinelIsPromoted` and `Voting.StaysAbleIff` say what
  that means for a voter.
- A new-view message replaces a validator's highest certificate without a check of its
  signatures. `Voting.HighestQcCheckedIff` says in which runs the highest certificate is
  nevertheless a checked one.
- A view change accepts a reported certificate by the number of set bits alone.
  `ViewChange.CarriedPassesIff` says when the one it carries passes verification.
- Proposers sign headers in the layout of votes, and nothing ties a member's proposals to its
  votes. `Voting.Agreement` counts members that sign two blocks of one slot and view with the
  faulty ones; `CrossView.UnsteadyMayDisagree` shows why.
- Recipients check that their rows were committed to, not that they lie on a polynomial.
  `Consistency.AcceptedDealerSplitsQuorums` shows accepted rows from which quorums recover
  different secrets, `Consistency.CeremonyRecoversOneIff` when they recover one.
- A fallback proof with trailing bytes is accepted.
- Block selection is described as first come first served across senders. It is round-robin
  in address order. `RoundRobin.ArrivalOrderNotKept` shows the difference and
  `RoundRobin.FirstComeFirstServedIff` when there is none.
- The audit of an honest block is not always clean. `Inclusion.HonestBlockMayBeFlagged` shows
  such a block, `Inclusion.CleanAuditIff` when the audit is clean.
- A gas limit of `u64::MAX` admits every transaction. `BlockBuilder.WithinLimitIff` gives the
  exact condition under which a block stays within its limit,
  `BlockBuilder.LargestLimitExceeded` a block that does not.
- Running past the last instruction is a success in emitted code and a trap in the
  interpreter (`Divergence.RunningOffDiverges`), which cannot happen to code that ends in a
  terminator (`Divergence.TerminatedNeverRunsOff`).
- Emitted code truncates addresses that the interpreter refuses
  (`Divergence.TruncatedAddressDiverges`: 2^32 above the start of the heap). Effects agree
  exactly on addresses within 32 bits (`Metering.SameEffect`).
- The emitted gas counter wraps where the interpreter's overflows
  (`Divergence.UnlimitedLoopDiverges`). A successful compiled run is the interpreter's exactly
  when its counter did not wrap and its addresses stayed within 32 bits
  (`Simulation.MeteringPreservesMeaning`), and without a limit the two end alike exactly when
  the interpreter's counter does not overflow and the addresses stayed within 32 bits
  (`Divergence.UnlimitedEndsAlikeIff`).
- The recovery leader rotates through the committee except across the wrap-around of height
  plus view. `ViewChange.RotationIff` gives the exact condition.

## Model

| member | source | states |
|---|---|---|
| Certificates.QuorumFor | crates/consensus/src/block.rs:23-29 | the quorum is the least number that is at least two thirds of the committee |
| Certificates.QuorumsShareHonest | crates/consensus/src/block.rs:23-29 | two quorums share a member that is not faulty when fewer than a third are |
| Certificates.SignMessageInjective | crates/consensus/src/hotstuff.rs:31-37 | a signed vote message stands for one slot and one block hash |
| Certificates.VerifyQc | crates/consensus/src/hotstuff.rs:409-450 | accepts exactly the empty sentinel and the certificates in which the k-th signature is a valid one by the member at the k-th set bit, for a quorum |
| Certificates.TryFormQc | crates/consensus/src/hotstuff.rs:315-375 | forms a certificate exactly when a quorum of distinct members voted validly, with duplicates and bad votes around; it names those members, carries votes from the list, and passes verification |
| Headers.QcPreimageInjective | crates/consensus/src/block.rs:67-73 | a certificate digest input fixes slot, block hash and bitmap |
| Headers.BlockHashFixesView | crates/consensus/src/block.rs:119-130 | a block hash fixes the slot and the proposal view |
| Headers.FallbackProofRoundTrip | crates/consensus/src/view_change.rs:548-576 | decoding undoes encoding, and a decoded proof starts with the encoding of what it decodes to |
| Voting.ConsensusState.constructor | crates/consensus/src/hotstuff.rs:145-160 | the initial voting state |
| Voting.ConsensusState.CreateVote | crates/consensus/src/hotstuff.rs:216-275 | reply and new state of every branch: refusal, invalid certificate, failed signing, vote |
| Voting.StepKeepsDiscipline | crates/consensus/src/hotstuff.rs:25-275 | every step keeps votes strictly increasing in (slot, view) and signatures in the vote layout backed by cast votes or own proposals, and never lowers the highest certificate, checked or not |
| Voting.RunIsDisciplined | crates/consensus/src/hotstuff.rs:216-275 | that discipline holds of every honest member in every run |
| Voting.OneVotePerView | crates/consensus/src/hotstuff.rs:216-275 | in every run a member votes for at most one header per slot and view |
| Voting.HighestQcNeverRegresses | crates/consensus/src/hotstuff.rs:216-275 | in every run the slot of a member's highest certificate never drops |
| Voting.HighestQcCheckedIff | crates/node/src/node.rs:6598-6609 | throughout a run a member's highest certificate passes verification exactly when every newer one it was handed outside voting does |
| Voting.UncheckedIsInstalled | crates/node/src/node.rs:6598-6609 | an unbacked certificate past slot zero becomes a new member's highest |
| Voting.SteadyIff | crates/consensus/src/hotstuff.rs:25-37 | in every run a member signs one block per slot and view over votes and proposals exactly when each of its proposals agrees with what else it signed: voting alone never breaks it |
| Voting.VotingForOwnIsSteady | crates/consensus/src/hotstuff.rs:216-275 | a member that votes for whatever it proposes signs one block per slot and view |
| Voting.Agreement | crates/consensus/src/hotstuff.rs:25-375 | in every run with fewer than a third faulty or signing two blocks of one slot and view as voter and proposer, two certificates for one slot whose blocks have one proposal view are for one block |
| Voting.RefusesOldHeightsIff | crates/consensus/CONSENSUS_INVARIANTS.md:47-49 | over all runs, votes at or below the locked height are refused exactly when the proposal's own certificate is older than the proposal or nobody votes for it at all |
| Voting.NeverVotesBelow | crates/consensus/src/hotstuff.rs:238-240 | from any point of a run on, votes go only to proposals whose certificate is at least as new as the highest one then |
| Voting.SentinelIsPromoted | crates/consensus/src/hotstuff.rs:242-255 | an eligible proposal on an empty certificate moves the highest slot to that certificate's slot |
| Voting.StaysAbleIff | crates/consensus/src/hotstuff.rs:216-275 | some proposal on a certificate up to slot s still gets a vote exactly while the highest certificate is not newer than s and a slot or view is left |
| CrossView.CertifiableIff | crates/consensus/src/hotstuff.rs:409-450 | a block can be certified exactly when the members that are faulty or signed it make up a quorum |
| CrossView.ViewsMayDisagree | crates/consensus/src/hotstuff.rs:216-275 | in any committee without faulty members a run exists after which two different blocks of one slot, proposed at different views, can be certified |
| CrossView.UnsteadyMayDisagree | crates/consensus/src/hotstuff.rs:25-37 | a committee of one that votes for one header and proposes another of the same slot and view can certify both |
| ViewChange.ViewChangePreimageInjective | crates/consensus/src/view_change.rs:346-366 | a signed report stands for one height and one certificate digest |
| ViewChange.TryFormViewChangeQc | crates/consensus/src/view_change.rs:412-475 | forms exactly when a quorum of distinct members reported; carries the newest certificate that marks a quorum among the first valid report of each, the earliest of several |
| ViewChange.ViewChangeKeepsProgress | crates/consensus/src/view_change.rs:412-475 | if the honest members of some quorum report only certificates of slot at least s that mark a quorum for a height, every formable view-change certificate carries one of slot at least s |
| ViewChange.CarriedIsUnique | crates/consensus/src/view_change.rs:420-456 | the reports determine the carried certificate |
| ViewChange.CarriedPassesIff | crates/consensus/src/view_change.rs:441-456 | the carried certificate passes verification exactly when the leading report's does |
| ViewChange.UnbackedReportCarried | crates/consensus/src/view_change.rs:441-456 | one report newer than all others is carried although its certificate does not pass verification |
| ViewChange.FallbackLeader | crates/consensus/src/view_change.rs:517-522 | the leader is a committee member |
| ViewChange.RotationIff | crates/consensus/src/view_change.rs:517-522 | among n consecutive views each member leads exactly one, exactly when height plus view does not wrap in between or n divides 2^64 |
| Finality.FinalityTracker.constructor | crates/consensus/src/finality.rs:284-291 | a new tracker is empty |
| Finality.FinalityTracker.RecordSoftFinality | crates/consensus/src/finality.rs:305-318 | the tracker after a soft recording, including one without quorum |
| Finality.FinalityTracker.PromotePending | crates/consensus/src/finality.rs:333-338 | every pending entry for the certified slot and block becomes Hard, the others stay |
| Finality.FinalityTracker.PrunePending | crates/consensus/src/finality.rs:361-361 | exactly the entries past the checkpoint stay, in order |
| Finality.FinalityTracker.RecordHardFinality | crates/consensus/src/finality.rs:330-362 | the tracker after a hard recording: promotion, then checkpoint and pruning only if the slot advances |
| Finality.FinalityTracker.CanReorg | crates/consensus/src/finality.rs:365-370 | a slot can be reorganised exactly if it lies past the checkpoint |
| Finality.FinalityTracker.FinalityLevel | crates/consensus/src/finality.rs:373-392 | the level by checkpoint first, then by the first pending entry |
| Finality.LevelAfterHard | crates/consensus/src/finality.rs:330-392 | the level of every block after a hard recording in terms of the state before |
| Finality.HardIsPermanent | crates/consensus/src/finality.rs:305-392 | in every run, Hard stays Hard, a slot closed to reorganisation stays closed, the checkpoint never moves back |
| Finality.SoftLostIff | crates/consensus/src/finality.rs:330-392 | soft finality is lost exactly to a checkpoint at the same slot with another block |
| Finality.HardIsCertified | crates/consensus/src/finality.rs:305-392 | in every run, Hard traces back to a recorded certificate for that block or a later slot |
| HardFinality.FinalityMessageInjective | crates/consensus/src/finality.rs:106-119 | an attestation stands for one chain, slot, block and state root |
| HardFinality.TryFormHardFinality | crates/consensus/src/finality.rs:201-256 | forms exactly when a quorum of distinct members attested; names them, one signature each in arrival order |
| HardFinality.SharedAttester | crates/consensus/src/finality.rs:201-256 | with fewer than a third faulty, two certificates of a slot share an honest member who signed both attestations; if the certificates differ, two different ones |
| HardFinality.HardCertsAgree | crates/consensus/src/finality.rs:201-256 | where honest members attest once per slot, two certificates of a slot agree on block and state root |
| Nonce.Validated | crates/account/src/nonce.rs:49-72 | accepted exactly if in the window and not consumed; which error otherwise |
| Nonce.NonceState.WithBase | crates/account/src/nonce.rs:39-41 | a window with nothing marked |
| Nonce.NonceState.Validate | crates/account/src/nonce.rs:49-72 | the check on the fields is the check on the window value |
| Nonce.NonceState.UseNonce | crates/account/src/nonce.rs:76-81 | the new window and reply of a request |
| Nonce.NonceState.Advance | crates/account/src/nonce.rs:85-101 | the sliding loop, including its stop at the last 64-bit nonce |
| Nonce.AdvancedConsumes | crates/account/src/nonce.rs:85-101 | sliding forgets and invents no consumed nonce and leaves a free base unless it is the last nonce |
| Nonce.NonceUsedRefinesSet | crates/account/src/nonce.rs:49-101 | a request adds exactly the accepted nonce to the consumed set |
| Nonce.WindowIsAcceptedSet | crates/account/src/nonce.rs:39-101 | over all runs the window stands for the nonces below the start and those accepted |
| Nonce.NoReplay | crates/account/src/nonce.rs:39-101 | over all runs no nonce is accepted twice |
| Nonce.BaseIsLeastUnused | crates/account/src/nonce.rs:39-101 | over all runs the base is the least unused nonce and is acceptable, until all are used |
| Ordering.VrfShuffle | crates/mempool/src/ordering.rs:37-47 | the in-place loop computes the descending sequence of swaps |
| Ordering.VerifyShuffle | crates/mempool/src/ordering.rs:56-63 | accepts exactly the one order the draws produce |
| Ordering.ShuffledIsPermutation | crates/mempool/src/ordering.rs:37-47 | every index appears exactly once |
| Ordering.ApplyKeepsItems | crates/mempool/src/ordering.rs:50-52 | applying the shuffle rearranges the items |
| Ordering.OrderDeterminesPicks | crates/mempool/src/ordering.rs:37-47 | two vectors of picks give one order exactly when they agree |
| Ordering.EveryOrderReachable | crates/mempool/src/ordering.rs:37-47 | every rearrangement is the shuffle of some picks |
| Mempool.GasPermutation | crates/mempool/src/block_builder.rs:102-133 | total gas does not depend on the order |
| BlockBuilder.GroupBySender | crates/mempool/src/block_builder.rs:40-52 | each sender's unexpired transactions in nonce order, and no other senders |
| BlockBuilder.SortedSenders | crates/mempool/src/block_builder.rs:59-62 | the senders, each once, ascending |
| BlockBuilder.Turn | crates/mempool/src/block_builder.rs:67-85 | a sender takes its next transaction exactly if it has one that fits, and is done otherwise |
| BlockBuilder.Round | crates/mempool/src/block_builder.rs:65-86 | a pass over the senders is one round of turns; without progress everyone is done |
| BlockBuilder.SelectAndOrder | crates/mempool/src/block_builder.rs:35-88 | terminates with the round-robin selection, within the limit when it is below the largest 64-bit number |
| RoundRobin.SelectionIsUnique | crates/mempool/src/block_builder.rs:54-88 | turn order, fitting, gap-free prefixes and justified stops leave one possible selection |
| RoundRobin.NextDoesNotFit | crates/mempool/src/block_builder.rs:74-77 | the next transaction of a sender left waiting does not fit the finished block |
| RoundRobin.FittedWithin | crates/mempool/src/block_builder.rs:74-82 | below the largest limit, transactions that fitted one by one stay within the limit together |
| RoundRobin.FirstComeFirstServedIff | crates/mempool/src/block_builder.rs:31-88 | where everything fits, the block is in arrival order exactly when the transactions arrived in turn, each sender in nonce order |
| RoundRobin.ArrivalOrderNotKept | crates/mempool/src/block_builder.rs:54-88 | of two transactions that fit, the later goes first when its sender has the smaller address |
| BlockBuilder.TakenFromView | crates/mempool/src/block_builder.rs:35-88 | a selection takes each transaction at most as often as the mempool holds it |
| BlockBuilder.WithinLimitIff | crates/mempool/src/block_builder.rs:74-82 | the block stays within its limit exactly when the limit is below the largest 64-bit number or everything fits |
| BlockBuilder.LargestLimitExceeded | crates/mempool/src/block_builder.rs:74-82 | at the largest limit two transactions of 2^63 gas make a block of 2^64 |
| BlockBuilder.SumGas | crates/mempool/src/block_builder.rs:104-104 | the wrapping sum, which is the total exactly below 2^64 |
| BlockBuilder.BuildBlock | crates/mempool/src/block_builder.rs:96-134 | the block is the selection in shuffled order with its gas as a wrapping sum, exact and within the limit when that is below the largest 64-bit number |
| Inclusion.AuditInclusion | crates/mempool/src/inclusion.rs:98-139 | the reported hashes in order and the gas left |
| Inclusion.MissingMembers | crates/mempool/src/inclusion.rs:112-132 | reported exactly the held transactions that are old enough, absent and would have fitted |
| Inclusion.HonestBlockExplained | crates/mempool/src/inclusion.rs:98-139 | against an honest block with the same view and ceiling, whatever is reported is expired or behind an earlier transaction of its sender that did not fit |
| Inclusion.HonestBlockMayBeFlagged | crates/mempool/src/inclusion.rs:98-139 | an honest block that skips a sender is reported for the sender's later, smaller transaction |
| Inclusion.CleanAuditIff | crates/mempool/src/inclusion.rs:98-139 | the audit of an honest block is clean exactly when nothing old enough, absent and small enough is expired or behind a transaction that did not fit |
| Inclusion.CleanAudit | crates/mempool/src/inclusion.rs:98-139 | every audit of the honest block is clean where nothing held is expired and gas limits never fall along a sender's queue |
| EpochRandomness.CombineShares | crates/consensus/src/epoch_randomness.rs:120-167 | the mixed outputs of the threshold lowest members, or nothing below the threshold |
| EpochRandomness.SameLowestSameResult | crates/consensus/src/epoch_randomness.rs:120-167 | nodes whose lowest members coincide get one result |
| EpochRandomness.ArrivalOrderIrrelevant | crates/consensus/src/epoch_randomness.rs:120-167 | arrival order and repetition do not matter |
| EpochRandomness.LateShareIff | crates/consensus/src/epoch_randomness.rs:150-151 | a late share leaves the canonical members alone exactly if it repeats one or lies above them all |
| EpochRandomness.LateHigherShareIgnored | crates/consensus/src/epoch_randomness.rs:120-167 | late shares of higher members never change the result |
| EpochRandomness.RandomnessCollector.constructor | crates/consensus/src/epoch_randomness.rs:194-201 | an empty collector |
| EpochRandomness.RandomnessCollector.AddShare | crates/consensus/src/epoch_randomness.rs:204-211 | adds a share exactly if its member is new |
| EpochRandomness.RandomnessCollector.IsComplete | crates/consensus/src/epoch_randomness.rs:215-217 | complete exactly if combining yields a result |
| EpochRandomness.RandomnessCollector.Finalize | crates/consensus/src/epoch_randomness.rs:240-242 | the combination of the collected shares |
| EpochRandomness.CompleteIffFinal | crates/consensus/src/epoch_randomness.rs:204-242 | in every run completeness is the possibility to finalise, and collecting loses nothing of what was offered |
| Packing.BytesToElements | crates/crypto/src/poseidon2.rs:63-77 | the chunk loop computes the packing |
| Packing.ElementIsChunk | crates/crypto/src/poseidon2.rs:63-77 | every packed chunk is below the Goldilocks prime and gives its bytes back |
| Packing.ElementsInjective | crates/crypto/src/poseidon2.rs:63-77 | different byte strings, the empty one included, are packed differently |
| Interpolation.InverseExists | crates/crypto/src/threshold.rs:73-78 | every nonzero residue modulo a prime has an inverse |
| Interpolation.BasisSumsToOne | crates/crypto/src/dkg.rs:2118-2133 | the Lagrange coefficients at zero sum to one |
| Interpolation.InterpolatesConstantTerm | crates/crypto/src/dkg.rs:2118-2133 | interpolation at zero through at least as many points as coefficients gives the constant term |
| Shamir.SampleGoldilocks | crates/crypto/src/dkg.rs:907-936 | the first canonical candidate, failing exactly when all 64 are rejected |
| Shamir.EvaluateAt | crates/crypto/src/dkg.rs:962-971 | the running power loop evaluates the polynomial |
| Shamir.ShamirSplitY | crates/crypto/src/dkg.rs:942-973 | every position gets the value of one sampled polynomial with the secret as constant term; fails exactly when a coefficient cannot be sampled |
| Shamir.AggregateLocalShare | crates/crypto/src/dkg.rs:1237-1257 | element-wise field sums; errors exactly for no rows and for a foreign row |
| MasterSecret.LagrangeAtZero | crates/crypto/src/dkg.rs:2118-2133 | the nested loops compute the interpolation at zero |
| MasterSecret.MasterSecretRecovered | crates/crypto/src/dkg.rs:942-1257 | for every set of dealings, any t or more positions interpolate to the sum of the secrets |
| MasterSecret.QuorumsAgree | crates/crypto/src/dkg.rs:2269-2298 | any two quorums reconstruct the same secret |
| MasterSecret.Reconstruct | crates/crypto/src/dkg.rs:2222-2266 | interpolating the master shares of t distinct holders yields the master secret |
| Secrecy.Fit | crates/crypto/src/dkg.rs:942-973 | through any points with distinct residues runs a polynomial with as many coefficients |
| Secrecy.BelowThresholdHidesSecret | crates/crypto/src/dkg.rs:2301-2335 | fewer than t shares, whatever their values, are consistent with every secret |
| Secrecy.OnlyZeroVanishes | crates/crypto/src/dkg.rs:942-973 | a polynomial that vanishes at as many residues as it has coefficients is zero |
| Secrecy.SecretsEquallyExplained | crates/crypto/src/dkg.rs:2301-2335 | t - 1 shares have exactly one sharing polynomial for each secret |
| Trees.UpKeepsTree | crates/crypto/src/dkg.rs:180-186 | hashing a level in pairs keeps the root |
| Trees.NextPowerOfTwo | crates/crypto/src/dkg.rs:176-179 | the least power of two that holds the leaves |
| Trees.ComputeRoot | crates/crypto/src/dkg.rs:170-188 | the level-by-level loop computes the recursive root of the padded leaves, the empty list included |
| Trees.Siblings | crates/crypto/src/dkg.rs:237-272 | the collected siblings reconstruct the root, one per level |
| Trees.Follow | crates/crypto/src/dkg.rs:276-288 | the verification loop climbs the path |
| Trees.PathNamesLeaf | crates/crypto/src/dkg.rs:276-288 | a path that reaches the root is as long as the tree is deep and starts at the leaf its index names |
| Merkle.LeafInputInjective | crates/crypto/src/dkg.rs:135-147 | a leaf preimage fixes row, epoch and contributor |
| Merkle.ComputeMerkleRoot | crates/crypto/src/dkg.rs:170-188 | the committed root of a leaf list |
| Merkle.GenerateMerkleProof | crates/crypto/src/dkg.rs:237-272 | every generated proof is accepted, for any number of leaves; none exactly for an index out of range |
| Merkle.VerifyMerkleProof | crates/crypto/src/dkg.rs:276-288 | accepts exactly if the climb ends in the root |
| Merkle.AcceptedRowIsCommitted | crates/crypto/src/dkg.rs:135-288 | an accepted row belongs to that tree and is the one committed at the index modulo the padded size, never padding, and the proof has one sibling per level |
| Codecs.RowRoundTrip | crates/crypto/src/dkg.rs:89-128 | decoding undoes encoding of share rows |
| Codecs.RowBytesUnique | crates/crypto/src/dkg.rs:89-128 | accepted bytes are the encoding of the row they decode to |
| Codecs.DecodeRow | crates/crypto/src/dkg.rs:101-128 | the decoding loop rejects wrong lengths and non-canonical values |
| Codecs.ProofRoundTrip | crates/crypto/src/dkg.rs:202-232 | decoding undoes encoding of Merkle proofs |
| Codecs.ProofBytesUnique | crates/crypto/src/dkg.rs:202-232 | accepted bytes are the encoding of the proof |
| Codecs.DecodeProof | crates/crypto/src/dkg.rs:212-232 | the decoding loop reads the siblings in order |
| Codecs.CommitmentRoundTrip | crates/crypto/src/dkg.rs:359-396 | decoding undoes encoding of commitments |
| Codecs.CommitmentBytesUnique | crates/crypto/src/dkg.rs:359-396 | accepted bytes are the encoding of the commitment |
| Codecs.EnvelopeRoundTrip | crates/crypto/src/dkg.rs:479-517 | decoding undoes encoding of envelopes |
| Codecs.EnvelopeBytesUnique | crates/crypto/src/dkg.rs:479-517 | accepted bytes are the encoding of the envelope |
| Codecs.ComplaintRoundTrip | crates/crypto/src/dkg.rs:740-808 | decoding undoes encoding of complaints with their nested envelope and proof |
| Codecs.ComplaintBytesUnique | crates/crypto/src/dkg.rs:740-808 | accepted bytes are the encoding of the complaint |
| Envelopes.DeriveKeystream | crates/crypto/src/dkg.rs:409-435 | the counter loop yields byte i of block i / 32 |
| Envelopes.MacFixesBinding | crates/crypto/src/dkg.rs:440-459 | an envelope's MAC holds for one secret, round, contributor and recipient |
| Envelopes.OpenSealed | crates/crypto/src/dkg.rs:524-610 | opening what was sealed under the same binding gives the plaintext |
| Envelopes.EncryptShareRow | crates/crypto/src/dkg.rs:524-557 | the envelope of a row, or failure of encapsulation |
| Envelopes.DecryptShareRow | crates/crypto/src/dkg.rs:566-610 | the row an envelope carries for the expected recipient, with the stand-in secret on failed decapsulation |
| Envelopes.EnvelopeDelivers | crates/crypto/src/dkg.rs:524-610 | the holder of the matching key recovers the encrypted row |
| Contribution.VerifyReceivedShare | crates/crypto/src/dkg.rs:1186-1225 | the outcome of the checks in their order |
| Contribution.AcceptedShareIsCommitted | crates/crypto/src/dkg.rs:1186-1225 | an accepted share is the row committed at the recipient's own position |
| Contribution.PublishedRowAccepted | crates/crypto/src/dkg.rs:1186-1225 | a recipient accepts whatever row was committed for its position, on a polynomial or not |
| Contribution.EveryRecipientAccepts | crates/crypto/src/dkg.rs:1079-1225 | every recipient of an honest contribution accepts it and recovers the polynomials evaluated at its index |
| Contribution.SampleSecret | crates/crypto/src/dkg.rs:1098-1102 | the sampled seed elements; fails exactly when one of them cannot be sampled |
| Contribution.SplitSecret | crates/crypto/src/dkg.rs:1104-1112 | one sharing polynomial per seed element and its values; fails exactly when one of their coefficients cannot be sampled |
| Contribution.BuildRows | crates/crypto/src/dkg.rs:1114-1129 | the rows and leaf hashes of a dealing |
| Contribution.EncryptAll | crates/crypto/src/dkg.rs:1136-1163 | one envelope and one accepted proof per position; fails exactly when a key takes no encapsulation |
| Contribution.Publish | crates/crypto/src/dkg.rs:1131-1172 | a signed commitment to the given rows, whatever they are, and each of them sent to its position; each error with its cause |
| Contribution.GenerateContribution | crates/crypto/src/dkg.rs:1079-1172 | each error with its cause: the input, the seed's own samples, the signature on this commitment, an encapsulation; otherwise a sampled dealing delivered to every position |
| Contribution.HonestCeremonyRecovers | crates/crypto/src/dkg.rs:1079-1257 | for any set of contributors that deal honestly, any quorum recovers the sum of the sampled secrets |
| Ceremony.ReceiveAll | crates/crypto/src/dkg.rs:1186-1225 | a holder accepts every contribution and gets its row of each dealing |
| Ceremony.OneMasterSecret | crates/crypto/src/dkg.rs:1079-1112 | the contributors' seeds determine one master secret |
| Ceremony.RunCeremony | crates/crypto/src/dkg.rs:1079-2266 | contributing, checking, aggregating and reconstructing in sequence yields the sum of the secrets the seeds determine, for any contributors and any quorum of holders |
| Consistency.RecoverOneIff | crates/crypto/src/dkg.rs:2118-2133 | values at nonzero positions give every t of them one value at zero exactly when they lie on one polynomial with at most t coefficients |
| Consistency.CeremonyRecoversOneIff | crates/crypto/src/dkg.rs:1186-2266 | whatever rows were committed to, all quorums recover one value exactly when the master shares lie on one polynomial with at most t coefficients |
| Consistency.AcceptedDealerSplitsQuorums | crates/crypto/src/dkg.rs:1186-1257 | rows on no such polynomial that every recipient accepts and from which two quorums recover different secrets |
| Complaints.VerifyComplaint | crates/crypto/src/dkg.rs:815-883 | each verdict exactly in its own circumstances |
| Complaints.VerdictMatchesRecipient | crates/crypto/src/dkg.rs:815-883 | with the truly decapsulated secret, verdict and recipient agree: Slander iff the share verifies, Malformed iff the position mismatches, the rest by MAC |
| Complaints.HonestShareIsSlander | crates/crypto/src/dkg.rs:815-883 | complaining about an honestly delivered share with its own proof is slander |
| Isa.ShiftsAgree | crates/aot/src/codegen.rs:681-725 | emitted shifts equal the interpreter's for every amount, large ones included |
| Isa.ArithmeticAgrees | crates/aot/src/codegen.rs:623-764 | every arithmetic operation has one result and traps alike in the interpreter and in emitted code |
| BasicBlocks.CollectStarts | crates/aot/src/analysis.rs:100-121 | exactly the entry, the successors of terminators and the branch targets, as byte offsets, aligned or not |
| BasicBlocks.SortStarts | crates/aot/src/analysis.rs:125-125 | the starts in ascending order |
| BasicBlocks.BuildBlocks | crates/aot/src/analysis.rs:126-168 | one block per start, holding the instructions up to the next start and their static gas; joined they are the code |
| BasicBlocks.PartitionIffAligned | crates/aot/src/analysis.rs:126-168 | the blocks are maximal runs from start to start exactly when no branch leads between two instructions |
| BasicBlocks.Analyze | crates/aot/src/analysis.rs:77-178 | the blocks joined are the code, one for every start in order; errors exactly for empty and unaligned bytecode |
| BasicBlocks.SuffixIsTotal | crates/aot/src/analysis.rs:148-161 | a block's gas is the sum over its instructions |
| Machines.Vm.constructor | crates/pvm/src/vm.rs:310-319 | a machine at the entry with no gas used |
| Machines.Vm.TakeBranch | crates/pvm/src/vm.rs:502-547 | a taken branch goes to its target, any other to the next instruction, and leaving the code traps |
| Machines.Vm.Step | crates/pvm/src/vm.rs:467-1556 | one step charges the instruction, executes it and charges the pages it touched, in that order |
| Machines.Vm.Run | crates/pvm/src/vm.rs:1559-1565 | the stepping loop is the reference run |
| Machines.IndexBlocks | crates/aot/src/codegen.rs:484-490 | the map holds the block that starts at each byte offset |
| Machines.StepEmitted | crates/aot/src/codegen.rs:519-545 | the prologue charges the block once, at its first instruction |
| Machines.BodyEmitted | crates/aot/src/codegen.rs:576-1216 | the emitted instruction: jumps through the map, page gas drained before the fault check, success after the last block |
| Machines.RunEmitted | crates/aot/src/codegen.rs:492-1552 | the emitted code run from its entry block |
| Machines.CompileAndRun | crates/aot/src/lib.rs:17-21 | under any limit: a finished interpreter run is reproduced, a success is the interpreter's exactly when the counter did not wrap and addresses stayed within 32 bits; with room in the counter, on terminated code, the interpreter succeeds exactly when the compiled run does with addresses in range |
| Metering.SameEffect | crates/aot/src/codegen.rs:623-1018 | an instruction has the same effect in both machines exactly when its address, if any, lies within 32 bits |
| Simulation.StepSimulates | crates/aot/src/codegen.rs:519-595 | one step of both machines keeps the compiled counter ahead by exactly the static gas left in the block, or the compiled machine runs out of gas on an excessive charge |
| Simulation.FinalGas | crates/pvm/src/vm.rs:466-500 | a run that finishes pays for the rest of its block |
| Simulation.FinishedRunsAgree | crates/aot/src/codegen.rs:519-595 | a finished interpreter run is reproduced with the same registers, memory and gas, for all limits and costs |
| Simulation.MeteringPreservesMeaning | crates/aot/src/codegen.rs:519-1552 | under any limit: finished runs are reproduced; a compiled success is the interpreter's exactly when the counter did not wrap and addresses stayed within 32 bits; without wrap-around, an address outside means the interpreter refused it and otherwise out of gas, revert, trap and running on carry over; without a limit the compiled machine never runs out of gas |
| Simulation.RoomNeverWraps | crates/aot/src/codegen.rs:519-595 | the counter does not wrap when the limit leaves room for the program and one access, or when the number of instructions times their cost does |
| Simulation.FinishedNeverWraps | crates/aot/src/codegen.rs:519-1018 | on a run the interpreter finishes the compiled counter never wraps and its addresses stay within 32 bits |
| Simulation.OutOfGasNeverHidesSuccess | crates/aot/src/codegen.rs:519-595 | when the compiled machine runs out of gas, no interpreter run of any length finishes |
| Divergence.UnlimitedLoopDiverges | crates/aot/src/codegen.rs:524-540 | without a limit, a jump to itself at its listed cost runs out of gas in the interpreter and never ends in emitted code |
| Divergence.UnlimitedEndsAlikeIff | crates/aot/src/codegen.rs:519-1018 | without a limit the two machines end alike exactly when the interpreter's counter does not overflow and the addresses of the emitted code stay within 32 bits |
| Divergence.TruncatedAddressDiverges | crates/aot/src/codegen.rs:960-1018 | a load from 2^32 above the start of the heap is refused by the interpreter and in emitted code loads from the start of the heap and succeeds, whatever pages it touches |
| Divergence.FixedStaysInRange | crates/aot/src/codegen.rs:960-1018 | one sufficient case: emitted accesses at fixed nonnegative offsets from the zero register stay within 32 bits in any run |
| Divergence.FixedNeverUnsafe | crates/pvm/src/vm.rs:467-1556 | in that case the interpreter never refuses an address |
| Divergence.RunningOffDiverges | crates/aot/src/codegen.rs:1517-1524 | code without a terminator at its end runs off in the interpreter and succeeds when emitted |
| Divergence.TerminatedNeverRunsOff | crates/pvm/src/vm.rs:467-1565 | terminated code is never run off in any run |
| Divergence.SuccessIsSuccess | crates/aot/src/codegen.rs:484-1552 | on terminated code with room in the counter, the interpreter succeeds exactly when emitted code does with addresses within 32 bits, with the same registers, memory and gas |
| Simulation.PackedResult | crates/aot/src/codegen.rs:1584-1591 | the status survives packing, and the gas exactly below 2^62 |
| CompiledBlocks.BlocksRunCompiled | crates/aot/src/codegen.rs:484-1522 | the laid-out blocks with their entry map run like the machine metered by position |
| CompiledBlocks.EmittedCodeIsCorrect | crates/aot/src/codegen.rs:484-1552 | for analysed bytecode under any limit, the emitted blocks relate to the interpreter as the compiled machine does |

## Left out

- Simulation.MeteringPreservesMeaning: a reverting or trapping interpreter run may run out of gas when compiled, and a revert may report more gas, because a block is charged before its assertion or fault is reached.
- CompiledBlocks.EmittedCodeIsCorrect: requires every block start to be aligned; what emitted code does when a branch leads between two instructions is not modelled.
- BasicBlocks.Analyze: bytecode of 4 GiB or more, whose offsets are truncated to 32 bits, is not modelled.
- Machines.Vm.Step: the opcodes listed below as left out are not part of the step.
- Machines.BodyEmitted: the opcodes listed below as left out are not part of the emitted instruction.
- Machines.Vm.Run: runs are cut off after a given number of instructions, since programs need not terminate.
- Machines.RunEmitted: runs are cut off after a given number of instructions, since programs need not terminate.
- HardFinality.HardCertsAgree: assumes honest members attest once per slot; the functions that create attestations keep no state that would enforce it. `SharedAttester` is the statement without that assumption.
- Interpolation.InverseExists: existence only; the field library's inverse is a parameter that has the stated property.
- Contribution.EveryRecipientAccepts: requires a committee smaller than 2^32, since indices are encoded in 32 bits.
- Agreement across different views of one slot, which the voting rule alone does not decide.
- That an honest contributor is never judged faulty: envelopes and the proofs in complaints are not signed by the contributor.
- The lattice signature scheme, the key-encapsulation mechanism, the permutation behind the hash and the field inverse: parameters with stated assumptions.
- Divergence.FixedNeverUnsafe: covers only fixed offsets from the zero register; the exact condition is `StaysInRange` in `Simulation.MeteringPreservesMeaning`.
- When a member proposes and what it puts into a header; pending vote lists and the slot clock.
- Timeouts, networking, slashing amounts, the validator registry, and the codecs of transactions and accounts.
- Emitted code for calls and returns, wide registers, storage, logs, memory copy, hashing, environment queries and delegated opcodes; code generation itself beyond the meaning of what it emits.
- The emitted code's register array and host memory are updated in place; the model passes them on as values.
- The parallel execution schedule of a built block, and parsing a block's raw bytes before the inclusion audit.
- The wire format of master shares, which has the layout of share rows.
