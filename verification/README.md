# AstroLune, modelled and proved in Dafny

This project models the parts of AstroLune where a mistake is hardest to see: consensus
at one height, execution that must not depend on threads, the committee history, weighted
draws, and three byte formats. It states as theorems what the repository promises about them.

## What is modelled

- **Consensus.** Committees, votes, prevote and finality certificates, double-vote evidence,
  the vote collector, the durable signing journal and the local voter with its lock. Honest
  voters take every step of the local voter, crashes and failed disk writes included. Faulty
  voters sign anything. Signatures are symbolic: an honest signature exists only if that
  voter issued the vote. The main theorems are `Agreement.CertificatesAgree` (safety over
  every run), `Validity.CertificatesAreValidated` (nothing is decided that no honest member
  validated) and `Progress.HeightCanComplete` with `Leaders.HonestLeaderDecides` (from every
  reachable world an honest quorum can still finish the height, in the first round that one
  of its members leads).
- **Execution.** Payments with exact error order, mixed sessions, the conflict scheduler, the
  readiness graph with fused paths and frozen overlays, the wave executor and the guarded
  account prefixes ("VeyraFold"). Workers finish in arbitrary order. The main theorem is
  `Execution.ExecuteParallel`: threads and accelerators change nothing but speed.
- **Committee history.** The 64-level frontier, the recursive prover and the shifting
  verifier, against the Merkle tree of section 2.1 of RFC 9162. Hashes are injective
  constructors.
- **Draws.** Rejection sampling over 128-bit values, draws without replacement, rotation.
- **Formats.** The transaction envelope, and the name registry's leases and calls with the
  registry as a state machine over stored bytes.

Files follow the source: `Weights`, `Committee`, `Batch`, `Certificates`, `Signer`, `Voting`,
`LocalVoter`, `ValidatorRuns`, `Agreement`, `Validity`, `Progress`, `Leaders`, `Evidence`,
`Collector` for consensus; `MerkleTree`, `Frontier`, `History`; `Draws`; `Ledger`, `Payments`, `Acceptance`, `Scheduler`, `Waves`, `Speculation`, `Jobs`,
`ReadyDag`, `WaveRun`, `Guards`, `FoldMeaning`, `Fold`, `Execution` for execution; `Codec`,
`Layout`, `Wire`; `Registry`, `RegistryLayout`, `RegistryWire`, `RegistryRuns`, `RegistryEffects`.

## How the parts are connected

- An object of the source is a class. Its methods are proved against functions of the old
  state (`Voting`, `Ledger.Pay`, `Payments.SessionStep`, `Codec.Parse`, `Registry.Next`), and the
  theorems about whole runs are about those functions.
- A thread is a nondeterministic choice: which worker finishes, which segment is summarized
  next, which threads the host can start. Proofs hold for every choice.
- `Speculation.Matches` is the idea behind parallel execution: for every key, whenever the
  completed transactions are a prefix as far as writers of that key go, the overlay holds the
  serial value at the end of that prefix.
- Contract code is a function of transaction and visible state. The executor relies on one
  hypothesis, `Ledger.EngineConfined`: covered transactions read declared keys and the fixed
  runtime profile, and write only keys declared in write mode. Payments are proved to
  satisfy it.

## Places where the source is stricter or looser than it reads

- The overflow branches of the vote tally, of the collector's power sum and of the guard
  compositions cannot be reached; the proofs replace them by assertions.
- The coordinator's stuck branch, the second key pass of the transaction decoder, the
  write-once conflicts of the fold and the closing weight check of rotation cannot fail.
- Two certificates agree already when faulty power is at most one third of the total, since a
  quorum is strictly more than two thirds.

## Model

| member | source | states |
|---|---|---|
| `Weights.QuorumPower` | crates/consensus/src/weight.rs:15-17 | the quorum is the least power strictly above two thirds of the total, at most the total, and its arithmetic stays inside 128 bits |
| `Weights.QuorumsOverlap` | crates/consensus/src/weight.rs:15-17 | any two quorums of one committee share more than a third of its power |
| `Weights.HonestInBothQuorums` | crates/consensus/src/weight.rs:15-17 | with at most a third of the power faulty, any two quorums share an honest member |
| `Committee.TotalPower` | crates/consensus/src/authenticated.rs:18-31 | succeeds exactly on nonempty, bounded, duplicate-free, positive member lists whose sum fits 128 bits, and returns that sum |
| `Committee.CommitteeRules` | crates/consensus/src/authenticated.rs:18-31 | valid are exactly one to 4096 distinct members of positive power whose total fits 128 bits |
| `Committee.Authenticate` | crates/consensus/src/authenticated.rs:77-111 | succeeds exactly when every key is sound and the keys belong to the members, one each; a proof error means exactly that a malformed or weak key comes before any other fault; the result commits chain, height and seat order |
| `Committee.VotingPower` | crates/consensus/src/authenticated.rs:73-75 | a power exists exactly for member identities and is that member's own |
| `Committee.VerifyVote` | crates/consensus/src/authenticated.rs:187-193 | an accepted vote belongs to this chain, height and committee root and was signed by its voter over its own body; the result is that voter's power |
| `Committee.VoteRules` | crates/consensus/src/authenticated.rs:187-231 | which vote is refused for its context, for its voter or for its signature, and what an accepted one weighs |
| `Committee.RegisteredMembersHaveKeys` | crates/consensus/src/authenticated.rs:205-231 | for a valid committee the missing-key branch is unreachable, so a proof error means exactly a bad signature |
| `Batch.ChunkFailure` | crates/crypto/src/batch.rs:111-116 | the position is the first failing request of the chunk, in whole-slice coordinates |
| `Batch.Lower` | crates/crypto/src/batch.rs:119-125 | the join is one of its arguments and no larger than either |
| `Batch.FirstFailure` | crates/crypto/src/batch.rs:76-108 | for every worker count and every set of threads the host can start, the answer is the first failing request of the whole slice |
| `Batch.FirstFailureIsUnique` | crates/crypto/src/batch.rs:76-108 | the specification has one answer, so chunked and serial verification agree |
| `Certificates.Tally` | crates/consensus/src/authenticated.rs:252-294 | checking all cheap conditions first and signatures in a batch returns exactly what the vote-by-vote loop returns, error included; the power sum never overflows |
| `Certificates.TallyAcceptsExactlyQuorums` | crates/consensus/src/authenticated.rs:252-294 | the loop accepts exactly the vote lists whose members all vote authentically for the slot and reach quorum together |
| `Certificates.TallyReports` | crates/consensus/src/authenticated.rs:252-294 | a list of votes is refused for the first vote that cannot count, or for its weight if all can |
| `Certificates.VerifyCertificate` | crates/consensus/src/authenticated.rs:234-295 | decides a finality certificate, with the reported error, independently of worker count |
| `Certificates.CertificateMeaning` | crates/consensus/src/authenticated.rs:234-295 | acceptance is equivalent to a well-shaped certificate for this header whose signers form a precommit quorum for its block |
| `Certificates.CertificateRules` | crates/consensus/src/authenticated.rs:234-262 | acceptance field by field: this header and context, one to 4096 ascending signatures, a precommit quorum; a misfit is an invalid certificate |
| `Certificates.ProofRules` | crates/consensus/src/prevote.rs:17-30 | a prevote proof has one to 4096 votes in strictly ascending order of voter, the first for a block |
| `Certificates.FromVotes` | crates/consensus/src/prevote.rs:17-72 | builds a prevote certificate exactly when the ordered votes are one quorum slot, with the first error otherwise |
| `Certificates.GenuineProofIsAQuorumHere` | crates/consensus/src/prevote.rs:87-96 | a certificate built for any committee that passes the context check is a prevote quorum of this committee and would be rebuilt unchanged |
| `Certificates.QuorumOf` | crates/consensus/src/authenticated.rs:133-135 | the cached sum gives the quorum of the weighted set |
| `Signer.ReserveIsExact` | crates/keystore/src/journal.rs:560-664 | a signature is released exactly for the last record again or for a later position whose lock follows and whose write succeeded; what every write outcome leaves behind |
| `Signer.ReserveErrors` | crates/keystore/src/journal.rs:560-600 | the error is that of the first reason in reporting order |
| `Signer.ReleasedMeansDurable` | crates/keystore/src/journal.rs:560-664 | a released signature is already on disk, and memory differs from disk only in a poisoned journal |
| `Signer.DurableSigner.SignProtected` | crates/keystore/src/durable.rs:334-346 | signs exactly when the journal reserved the position, for every outcome of the disk write |
| `LocalVoter.LocalBft.Open` | crates/consensus/src/local.rs:86-136 | refuses a journal without locks, of another chain or genesis, or of an unlisted voter; otherwise resumes round, step and lock from the last durable record of this height, or reports why it cannot |
| `LocalVoter.LocalBft.IssueVote` | crates/consensus/src/local.rs:374-410 | no field moves unless the journal accepted position, digest and lock together |
| `LocalVoter.LocalBft.CastPrevote` | crates/consensus/src/local.rs:268-296 | the whole new state and reply follow the locking rule for every journal outcome |
| `LocalVoter.LocalBft.CastPrecommit` | crates/consensus/src/local.rs:299-323 | locks and precommits only a block proved by a prevote certificate of the current round |
| `LocalVoter.LocalBft.TimeoutProposal` | crates/consensus/src/local.rs:326-331 | a nil prevote keeps the lock |
| `LocalVoter.LocalBft.TimeoutPrevote` | crates/consensus/src/local.rs:334-339 | a nil precommit keeps the lock |
| `LocalVoter.LocalBft.TimeoutPrecommit` | crates/consensus/src/local.rs:343-354 | advances to the next round without wrapping and keeps the lock |
| `LocalVoter.LocalBft.Finalize` | crates/consensus/src/local.rs:357-372 | finalizes only an accepted certificate and never a second block |
| `LocalVoter.LocalBft.Propose` | crates/consensus/src/local.rs:171-217 | a locked proposer signs another value only with strictly newer evidence |
| `ValidatorRuns.ReactKeepsInv` | crates/consensus/src/local.rs:268-410 | every event, crash and disk outcome keeps one voter's invariant: one value per position, certified locks, justified switches |
| `ValidatorRuns.NewPrevoteJustified` | crates/consensus/src/local.rs:268-296 | a voter that precommitted a block later prevotes another only if that block has a newer prevote quorum |
| `ValidatorRuns.ProofHasQuorum` | crates/consensus/src/prevote.rs:87-96 | a usable proof backed by real signatures is a quorum of signed prevotes |
| `ValidatorRuns.ReactAdvancesLock` | crates/consensus/src/local.rs:299-354 | no event lowers the durable lock round |
| `ValidatorRuns.RestartRestoresDurableState` | crates/consensus/src/local.rs:86-136 | reopening yields exactly the last durable lock, round and step |
| `Agreement.ReachableInv` | crates/consensus/src/local.rs:86-410 | every world reachable by honest steps, restarts and arbitrary faulty votes satisfies the invariant of every honest voter |
| `Agreement.LockedValueWins` | crates/consensus/src/local.rs:268-323 | once a quorum precommits a block, no other block gets a prevote quorum in that or any later round |
| `Agreement.PrecommitQuorumsAgree` | crates/consensus/src/local.rs:268-323 | precommit quorums of any two rounds name the same block |
| `Agreement.CertificatesAgree` | crates/consensus/src/authenticated.rs:234-295 | over every run at one height, two accepted certificates from any moments and rounds name the same block, with at most a third of the power faulty |
| `Agreement.FinalizedBlocksAgree` | crates/consensus/src/local.rs:357-372 | no two honest voters ever finalize different blocks |
| `Agreement.NeverEquivocates` | crates/consensus/src/local.rs:374-410 | over every run, restarts included, an honest voter signs at most one value per round and phase |
| `Agreement.LockNeverRegresses` | crates/consensus/src/local.rs:299-354 | between any two moments of a run an honest voter's durable lock round never falls |
| `Agreement.LocksAreCertified` | crates/consensus/src/local.rs:299-323 | every lock an honest voter ever holds has a prevote quorum in its round |
| `Agreement.RestartsAreExact` | crates/consensus/src/local.rs:86-136 | every restart in a run resumes with exactly the durable record |
| `Agreement.Switched` | crates/consensus/src/local.rs:268-296 | an honest voter that precommitted one block and later prevoted another did so after a prevote quorum for the other in a round between |
| `Progress.ReactKeepsPlaced` | crates/consensus/src/local.rs:86-410 | every event leaves the voter in the round and step of its last durable record or at the start of a later round, and finalized exactly in the last step |
| `Progress.IssueSucceeds` | crates/keystore/src/journal.rs:560-664 | in the step that calls for a vote the journal never refuses it: neither position nor lock rule stands in the way |
| `Progress.VotesOfQuorum` | crates/consensus/src/authenticated.rs:234-295 | whenever a quorum has signed a slot, signed votes can be listed that every tally accepts |
| `Progress.Nudge` | crates/consensus/src/local.rs:326-354 | each timeout moves a voter of its round and step one step on, keeps the durable lock and leaves everybody else alone |
| `Progress.Gather` | crates/consensus/src/local.rs:86-354 | from any reachable mix of rounds, steps and doubtful journals all honest voters can meet at the start of a round that none has reached, locks unchanged |
| `Progress.OnePrevoteQuorum` | docs/consensus/59-unbounded-consensus-argument.md:281-289 | at most one block per round has a prevote quorum |
| `Progress.Choose` | docs/consensus/59-unbounded-consensus-argument.md:281-289 | the block of the newest honest lock, shown by its own prevote quorum, passes the lock rule of every honest voter; without locks any block does |
| `Progress.PrevotesIt` | crates/consensus/src/local.rs:268-296 | a voter waiting in its round signs a prevote for a supported block |
| `Progress.PrecommitsIt` | crates/consensus/src/local.rs:299-323 | a voter that has prevoted signs a precommit for the block its round has certified |
| `Progress.Decide` | crates/consensus/src/local.rs:357-372 | a precommit quorum yields a certificate with which every honest voter finalizes that block, whatever it finalized before |
| `Progress.HeightCanComplete` | docs/consensus/59-unbounded-consensus-argument.md:252-305 | every run whose honest members hold a quorum and have rounds left extends, by honest actions alone, to a run in which all of them have finalized one block under one accepted certificate; any block will do while none is locked |
| `Leaders.LeadersTakeTurns` | crates/consensus/src/authenticated.rs:140-147 | in any window of as many rounds as seats, every seat leads exactly one |
| `Leaders.FirstLeader` | crates/consensus/src/authenticated.rs:140-147 | round zero belongs to the seat numbered like the height, modulo the seat count |
| `Leaders.NextHeightsLeader` | crates/consensus/src/authenticated.rs:140-147 | the next height repeats the order of this one, shifted by one seat |
| `Leaders.FirstHonestLeader` | docs/consensus/59-unbounded-consensus-argument.md:268-276 | the next honest leader comes within one turn of the table, after faulty leaders only |
| `Leaders.LeaderProposes` | crates/consensus/src/local.rs:171-217 | the lock of an honest leader never blocks its proposal of a supported block, and neither does its journal |
| `Leaders.HonestLeaderDecides` | docs/consensus/59-unbounded-consensus-argument.md:252-305 | from every reachable world with an honest quorum, the leader of the first round led by an honest member signs its proposal and all honest voters finalize it in that round |
| `Leaders.NobodyFinalizes` | docs/consensus/59-unbounded-consensus-argument.md:291-298 | below a quorum of honest power nobody finalizes in any run of honest actions alone |
| `Leaders.FinishesIffHonestQuorum` | docs/consensus/59-unbounded-consensus-argument.md:291-298 | while the others stay silent, a height can be finished exactly when honest power reaches the quorum |
| `ValidatorRuns.ResumeIsExact` | crates/consensus/src/local.rs:86-136 | exactly which journals voting resumes from, at which round, step and lock, and the reason for every refusal |
| `Validity.PrevoteIsExact` | crates/consensus/src/local.rs:268-296 | a waiting voter always prevotes: the block it was given exactly if that was validated and the lock lets it pass, otherwise nil |
| `Validity.UnfitProofIsRefused` | crates/consensus/src/local.rs:279-287 | a proof of another context, of this or a later round, or of another block stops the prevote and changes nothing |
| `Validity.PrecommitIsExact` | crates/consensus/src/local.rs:299-323 | a precommit is released and locked exactly for the block certified in this round and validated again |
| `Validity.StaleTimeoutsAreIgnored` | crates/consensus/src/local.rs:326-354 | a timeout for another round or step changes nothing |
| `Validity.WrongStepIsRefused` | crates/consensus/src/local.rs:171-323 | votes and proposals out of step are refused as invalid transitions and change nothing |
| `Validity.RoundsStayInRange` | crates/consensus/src/local.rs:343-354 | over every run no honest round or durable record passes the 32-bit ceiling |
| `Validity.VotesAreValidated` | crates/consensus/src/local.rs:257-323 | over every run, each block vote of an honest voter answers an event in which that voter validated the block for this height and committee |
| `Validity.QuorumsAreValidated` | crates/consensus/src/local.rs:257-323 | behind every prevote or precommit quorum stands an honest member that validated the block for that vote |
| `Validity.CertificatesAreValidated` | crates/consensus/src/authenticated.rs:234-295 | the block of every accepted certificate was validated by an honest member before it precommitted |
| `Validity.FinalizedIsValidated` | crates/consensus/src/local.rs:357-372 | whatever the faulty power, what an honest voter holds as final it validated itself when it finalized it |
| `Validity.FinalizedStays` | crates/consensus/src/local.rs:357-372 | whatever the faulty power, a finalized block is never exchanged for another between restarts |
| `Validity.ProposalsAreJustified` | crates/consensus/src/local.rs:171-217 | a signed proposal comes from the expected leader in its round, for a validated block; a claimed round, and any departure from the lock, rests on a prevote quorum |
| `Validity.DiskContinues` | crates/keystore/src/journal.rs:560-664 | over every run the record on disk is never rewritten and never goes back |
| `Validity.OneProposalPerRound` | crates/consensus/src/local.rs:171-217 | over every run, crashes included, an honest leader signs at most one proposal per round |
| `Evidence.EvidenceIffConflict` | crates/consensus/src/evidence.rs:25-59 | evidence is built exactly for two authentic votes of one voter and slot with different values, is the same whichever comes first, and verifies |
| `Evidence.EvidenceErrors` | crates/consensus/src/evidence.rs:25-59 | votes that are no conflict are refused as such; otherwise the first bad vote decides |
| `Evidence.ConflictingCertificatesConvict` | crates/consensus/src/evidence.rs:25-59 | two accepted certificates of one round for different blocks convict more than a third of the power, each common signer by verifiable evidence |
| `Collector.BftFinalityEngine.ReceiveVote` | crates/consensus/src/finality.rs:110-168 | keeps, over every sequence of votes: power entries are the weight of stored votes, a certificate exists exactly when some block has a precommit quorum and then verifies; refused votes change nothing but evidence |
| `Collector.BftFinalityEngine.Store` | crates/consensus/src/finality.rs:134-167 | the checked sum cannot overflow and the certificate appears with the vote that completes the quorum |
| `Collector.BftFinalityEngine.AdvanceRound` | crates/consensus/src/finality.rs:81-93 | moves on exactly before finality and below the last round, clearing votes but not evidence |
| `Collector.BftFinalityEngine.PrevoteProof` | crates/consensus/src/finality.rs:36-47 | a proof comes out exactly when the stored prevotes for the block reach quorum |
| `Collector.AtMostOneQuorum` | crates/consensus/src/finality.rs:110-168 | stored votes never give two blocks a quorum |
| `Collector.Certify` | crates/consensus/src/finality.rs:146-166 | the built certificate passes verification for the header of its block and lists exactly the supporters |
| `MerkleTree.RootIsInjective` | crates/consensus/src/history.rs:127-175 | equal roots over equally many entries mean equal entries |
| `MerkleTree.RootOfUp` | crates/consensus/src/history.rs:127-153 | pairing a level and promoting the odd entry does not change the recursive root |
| `MerkleTree.PathClimbs` | crates/consensus/src/history.rs:127-153 | an audit path is the sibling on this level followed by the path one level up |
| `MerkleTree.WalkAcceptsPath` | crates/consensus/src/history.rs:235-272 | for every count and position the shifting walk of section 2.1.3.2 of RFC 9162 takes the recursive path to the recursive root |
| `MerkleTree.WalkIsInjective` | crates/consensus/src/history.rs:235-272 | walks that reach one root with equally many siblings used the same leaf and the same siblings |
| `MerkleTree.PathLength` | crates/consensus/src/history.rs:273-294 | paths in a tree of at most two to the h entries have at most h siblings |
| `Frontier.PeaksAreTheBitsOfTheCount` | crates/consensus/src/history.rs:76-99 | occupied levels are exactly the set bits of the count and each peak is the root of the complete subtree of its bit |
| `Frontier.CarryStep` | crates/consensus/src/history.rs:76-99 | an odd level merges with the carry and passes it on; an even level keeps it |
| `Frontier.FoldStep` | crates/consensus/src/history.rs:167-175 | folding one level's peak into the right part preserves the root |
| `History.CommitteeHistory.Append` | crates/consensus/src/history.rs:76-99 | accepts exactly the next committee of the chain and keeps the frontier that of all appended leaves; a refusal changes nothing |
| `History.CommitteeHistory.Carry` | crates/consensus/src/history.rs:76-99 | the carry loop ends below level 64 and leaves exactly the peaks of the longer list |
| `History.CommitteeHistory.TreeRoot` | crates/consensus/src/history.rs:167-175 | the folded frontier is the recursive root of section 2.1.1 of RFC 9162 over everything appended |
| `History.CommitteeHistory.Subtree` | crates/consensus/src/history.rs:127-153 | rebuilds the root of a stretch and the audit path of the asked height, or fails exactly when a lookup fails |
| `History.CommitteeHistory.Rebuild` | crates/consensus/src/history.rs:114-120 | the rebuilt root and path are those of the looked-up roots, and it fails exactly when a lookup fails |
| `History.CommitteeHistory.Prove` | crates/consensus/src/history.rs:105-125 | returns a proof exactly when the height and work bound allow it and all lookups are the appended roots; the proof is the genuine one |
| `History.CommitteeHistory.Verify` | crates/consensus/src/history.rs:235-272 | accepts exactly the genuine proof presented with the committee really appended at its height |
| `History.Depth` | crates/consensus/src/history.rs:273-294 | the shape check computes the length of the audit path |
| `History.WalkSiblings` | crates/consensus/src/history.rs:249-270 | the two nested shift loops compute the recursive walk |
| `History.OnlyTheGenuineProofWalks` | crates/consensus/src/history.rs:235-272 | among sibling lists of the right length exactly the audit path leads the true leaf to the root |
| `History.LeafOfHeight` | crates/consensus/src/history.rs:161-166 | the leaf of a height is bound to chain, genesis, that height and its committee root |
| `History.EqualRootsEqualCommittees` | crates/consensus/src/history.rs:105-125 | comparing the rebuilt root with the frontier root detects every wrong lookup |
| `Draws.RejectsLessThanHalf` | crates/consensus/src/vrf_selection.rs:283-304 | the threshold is two to the 128 modulo the total, leaves a multiple of the total and rejects less than half of all values |
| `Draws.TicketsAreFair` | crates/consensus/src/vrf_selection.rs:283-304 | every ticket below the total comes from the same number of accepted 128-bit values |
| `Draws.DrawTicket` | crates/consensus/src/vrf_selection.rs:283-304 | the ticket is the value of the first of 256 attempts that is not among the lowest 2^128 modulo the total, reduced by the total; it fails exactly when all are rejected, and a zero total is refused |
| `Draws.TicketMeaning` | crates/consensus/src/vrf_selection.rs:283-304 | a ticket comes out exactly if it is the first accepted value modulo the total, and none exactly if all 256 values are rejected |
| `Draws.TicketErrors` | crates/consensus/src/vrf_selection.rs:283-304 | a ticket fails exactly when all attempts fall below the threshold |
| `Draws.TicketsFollowPower` | crates/consensus/src/vrf_selection.rs:202-209 | exactly a member's power in tickets selects that member |
| `Draws.ValuesFollowPower` | crates/consensus/src/vrf_selection.rs:187-213 | among the accepted 128-bit values, exactly a member's power times one common share selects that member |
| `Draws.SeatFollowsPower` | crates/consensus/src/vrf_selection.rs:187-213 | of the values the first attempt accepts, exactly a member's power times one common share gives that member the seat |
| `Draws.DrawnSeat` | crates/consensus/src/vrf_selection.rs:187-213 | in a whole draw that is what decides who holds the seat |
| `Draws.OwnerIsUnique` | crates/consensus/src/vrf_selection.rs:202-209 | every ticket selects one member |
| `Draws.Position` | crates/consensus/src/vrf_selection.rs:202-209 | the scan finds the owner of the ticket |
| `Draws.Draw` | crates/consensus/src/vrf_selection.rs:187-213 | fills the seats one by one, each by the owner of its ticket among those left; fails only for too many seats or exhausted attempts |
| `Draws.DrawConserves` | crates/consensus/src/vrf_selection.rs:187-213 | selected members and those left are always the original pool without repetition |
| `Draws.Select` | crates/consensus/src/vrf_selection.rs:103-111 | each of the `size` seats goes to the owner of its ticket among the members not yet drawn; a proof error means exactly that some seat ran out of attempts, any other refusal is a bad size |
| `Draws.Rotate` | crates/consensus/src/vrf_selection.rs:116-149 | keeps exactly the newest seats in order with their verified weights, draws the rest ticket by ticket from the members not kept, and always passes the closing weight check; a proof error means exactly exhausted attempts |
| `Draws.RotateEligible` | crates/consensus/src/vrf_selection.rs:247-280 | keeps the newer seats that are still eligible, in order, and draws up to the target ticket by ticket from the members not kept; a proof error means exactly exhausted attempts |
| `Draws.KeptInOrder` | crates/consensus/src/vrf_selection.rs:125-134 | retained seats keep their order |
| `Draws.RemainingInOrder` | crates/consensus/src/vrf_selection.rs:135-141 | the pool for the other seats is in roster order |
| `Draws.EligibleIsValid` | crates/consensus/src/vrf_selection.rs:116-149 | any distinct eligible members form a valid committee |
| `Ledger.Resources.CostIsExact` | crates/types/src/resources.rs:80-86 | the chained checked products and sums fail exactly when the mathematical total exceeds 64 bits |
| `Ledger.PayReadsTwoAccounts` | crates/execution/src/payment.rs:86-184 | the result of a payment depends on its two accounts only |
| `Ledger.ExecReadsDeclared` | crates/execution/src/signed.rs:52-78 | a transaction whose declaration covers its keys depends only on declared keys and the runtime profile |
| `Ledger.ExecWritesDeclared` | crates/execution/src/signed.rs:52-78 | such a transaction changes only keys declared in write mode |
| `Payments.PaymentSession.Execute` | crates/execution/src/payment.rs:86-184 | executes the reference rules over the session view; a rejection leaves every field unchanged |
| `Payments.PaymentSession.Settle` | crates/execution/src/payment.rs:116-155 | computes both new accounts or the first failing balance check, in reporting order |
| `Payments.PaymentSession.AccountOf` | crates/execution/src/payment.rs:77-82 | reads the session's own account before the snapshot |
| `Payments.SignedSession.Execute` | crates/execution/src/signed.rs:52-78 | adds the shared capacity check to the transaction's own meaning; an error leaves every field unchanged |
| `Acceptance.AcceptedIffAcceptable` | crates/execution/src/payment.rs:86-135 | a payment is accepted exactly when payer, envelope, signature, nonce, limits, declaration, balance and recipient meet the listed conditions; a missing recipient is no obstacle |
| `Acceptance.RefusedForFirstFault` | crates/execution/src/payment.rs:86-148 | the error is that of the first fault in reporting order |
| `Acceptance.AcceptedWrites` | crates/execution/src/payment.rs:136-182 | an accepted payment writes exactly the two accounts, a missing recipient starting from zero, and reports exactly what it used |
| `Acceptance.InactiveLanesAreRefused` | crates/execution/src/signed.rs:52-68 | contracts before activation and the system lane are always refused |
| `Ledger.CoverageRules` | crates/execution/src/parallel_payment.rs:496-536 | which keys each kind of transaction must declare |
| `Payments.PaymentEffect` | crates/execution/src/payment.rs:86-184 | an accepted payment moves the amount, burns the fee, counts one use and touches nothing else, self-transfers included |
| `Payments.Conservation` | crates/execution/src/payment.rs:86-184 | over any list of payments the total over all parties falls by exactly the fees of the accepted ones |
| `Payments.NoncesCountPayments` | crates/execution/src/payment.rs:86-184 | every nonce rises by exactly the number of accepted payments of its account |
| `Payments.AcceptedIsAuthentic` | crates/transaction/src/signed_validator.rs:53-115 | an accepted payment was signed by the key of its sender, for this chain, height and prices, with the exact nonce, inside its declared keys and limits |
| `Payments.NoReplay` | crates/transaction/src/signed_validator.rs:74-76 | accepted payments of one sender carry strictly increasing nonces, so no payment is ever accepted twice |
| `Scheduler.Dependencies` | crates/execution/src/scheduler.rs:66-105 | each list is ascending and holds exactly the immediate clashing predecessors and the previous transaction of the sender |
| `Scheduler.ClashMeaning` | crates/execution/src/scheduler.rs:114-145 | two transactions clash exactly if they share the sender or a declared key that is not merely the code both of them call |
| `Scheduler.SharedCodeIsNoClash` | crates/execution/src/scheduler.rs:114-145 | calls of different senders into one contract that share only its code key do not clash |
| `Scheduler.ClashIsForced` | crates/execution/src/scheduler.rs:66-105 | every clash is implied by a chain of recorded dependencies |
| `Scheduler.DependenciesOrderExactlyClashes` | crates/execution/src/scheduler.rs:66-105 | the closure of the recorded dependencies orders exactly the pairs that chains of clashes order |
| `Scheduler.ClosedUnderClashes` | crates/execution/src/scheduler.rs:66-105 | a set closed under recorded dependencies is closed under all clashes |
| `Waves.Plan` | crates/execution/src/scheduler.rs:139-189 | each wave lists, in block order, exactly the transactions whose longest clash chain has that length |
| `Waves.WavesAreConflictFree` | crates/execution/src/scheduler.rs:139-189 | clashing transactions lie in different waves in block order |
| `Waves.IndependentRunFirst` | crates/execution/src/scheduler.rs:147-175 | a transaction that clashes with nothing before it runs in the first wave |
| `Waves.WavesAreMinimal` | crates/execution/src/scheduler.rs:139-189 | no order-respecting assignment places any transaction earlier |
| `Waves.PlanIsShortest` | crates/execution/src/scheduler.rs:139-189 | no order-respecting assignment uses fewer waves |
| `Waves.DeepestChain` | crates/execution/src/scheduler.rs:139-189 | a clash chain of exactly the wave's depth ends in each transaction |
| `Waves.NoLongerChain` | crates/execution/src/scheduler.rs:139-189 | no clash chain is longer than its wave number allows |
| `Speculation.ReadyRunsAsSerial` | crates/execution/src/parallel_payment.rs:293-304 | a transaction whose recorded predecessors are published yields its serial output on any matching overlay |
| `Speculation.PublishingKeepsMatch` | crates/execution/src/parallel_payment.rs:355-358 | publishing a serial diff out of order keeps the overlay equal to the serial state wherever the published set cuts a key's writers |
| `Speculation.AllDoneIsSerial` | crates/execution/src/parallel_payment.rs:260-373 | a matching overlay of the whole block is the serial end state |
| `Jobs.RunJob` | crates/execution/src/parallel_payment.rs:293-304 | runs indexes in one session; it stops exactly at the first failing transaction or at the capacity |
| `Jobs.JobRunsAsSerial` | crates/execution/src/parallel_payment.rs:321-347 | a fused path on a frozen view yields serial outputs although other jobs publish meanwhile |
| `Jobs.FrozenAgrees` | crates/execution/src/parallel_payment.rs:334-347 | restricting the overlay to declared keys loses nothing the job can read |
| `Jobs.JobUsageBounded` | crates/execution/src/parallel_payment.rs:293-304 | a job never uses more than the block does serially |
| `ReadyDag.SuccessorIndexes` | crates/execution/src/parallel_payment.rs:486-494 | inverts the dependency lists, ascending |
| `ReadyDag.Coordinator.IdleWorker` | crates/execution/src/worker_pool.rs:66-68 | finds an idle worker unless all are busy |
| `ReadyDag.Coordinator.Fuse` | crates/execution/src/parallel_payment.rs:321-333 | the fused path is a chain of transactions each ready once the earlier ones are done |
| `ReadyDag.Coordinator.Submit` | crates/execution/src/parallel_payment.rs:334-348 | starting a job keeps all coordinator invariants |
| `ReadyDag.Coordinator.Launch` | crates/execution/src/parallel_payment.rs:317-349 | ends with nothing ready or every worker busy |
| `ReadyDag.Coordinator.Publish` | crates/execution/src/parallel_payment.rs:355-365 | publishing one result keeps counters, ready set, overlay and output slots exact |
| `ReadyDag.Coordinator.Complete` | crates/execution/src/parallel_payment.rs:353-366 | whichever worker finishes, the completed set grows strictly or the block does not run serially |
| `ReadyDag.NeverStuck` | crates/execution/src/parallel_payment.rs:350-352 | nothing in flight and nothing ready means everything completed |
| `ReadyDag.InFlight` | crates/execution/src/parallel_payment.rs:350-352 | the stuck branch of the coordinator is unreachable |
| `ReadyDag.RunDag` | crates/execution/src/parallel_payment.rs:260-373 | for every completion order success means serial outputs, and a serially succeeding block succeeds |
| `WaveRun.WavePartExtends` | crates/execution/src/parallel_payment.rs:446-453 | any part of a wave can run as one job over the overlay of earlier waves |
| `WaveRun.FusedExtends` | crates/execution/src/parallel_payment.rs:431-445 | consecutive singleton waves form a ready path in block order |
| `WaveRun.RunChunks` | crates/execution/src/parallel_payment.rs:446-463 | chunks over the pool cover the whole wave, results return in wave order and are serial |
| `WaveRun.PoolCovers` | crates/execution/src/parallel_payment.rs:447-453 | the pool has a worker for every chunk, so pairing chunks with buffers drops none |
| `WaveRun.RunWaves` | crates/execution/src/parallel_payment.rs:375-472 | for every worker count success means serial outputs, and with two or more workers a serially succeeding block succeeds |
| `Guards.NoOverflow` | crates/execution/src/fold.rs:37-58 | within the batch limits no 128-bit operation overflows, so composition fails only when no balance passes |
| `Guards.ThenAccepts` | crates/execution/src/fold.rs:37-62 | a composed guard accepts exactly the balances both steps accept in turn |
| `Guards.ThenIsAssociative` | crates/execution/src/fold.rs:37-58 | grouping of guards does not matter, empty results included |
| `Guards.JoinSummaries` | crates/execution/src/fold.rs:385-399 | composing summaries of two stretches accepts exactly the balances that every intermediate event accepts |
| `Guards.WalkStaysInRange` | crates/execution/src/fold.rs:222-265 | accepted event lists keep every intermediate balance in 64 bits |
| `FoldMeaning.SerialAccounts` | crates/execution/src/fold.rs:305-335 | while serial execution succeeds every account is its seed plus its events so far |
| `FoldMeaning.FoldIsSerial` | crates/execution/src/fold.rs:336-353 | payments that succeed on reconstructed inputs have serial outputs |
| `FoldMeaning.SerialWalks` | crates/execution/src/fold.rs:222-265 | in a serially succeeding block every seed walks its account's whole event list and no nonce runs out |
| `Fold.Collect` | crates/execution/src/fold.rs:222-265 | every account gets exactly its debits and credits in block order, or some payment is not representable |
| `Fold.Cut` | crates/execution/src/fold.rs:266-277 | segments tile every account's list in order without overlap |
| `Fold.Summarize` | crates/execution/src/fold.rs:290-304 | the summary accepts exactly the balances that walk the segment |
| `Fold.SummarizeAll` | crates/execution/src/fold.rs:368-371 | all slots are filled in any order, or some account cannot walk its list |
| `Fold.Scan` | crates/execution/src/fold.rs:372-400 | each prefix summarizes all earlier events of its account; failure means an account cannot walk its list or its nonce runs out |
| `Fold.Reconstruct` | crates/execution/src/fold.rs:305-335 | in any order every input slot is written exactly once, with the account its event meets |
| `Fold.SlotIsFree` | crates/execution/src/fold.rs:322-327 | no write-once slot is set twice |
| `Fold.ExecuteAll` | crates/execution/src/fold.rs:336-353 | each output is the reference result on the reconstructed pair |
| `Fold.Run` | crates/execution/src/fold.rs:212-411 | for every segment size success means serial outputs, and a serially succeeding block succeeds |
| `Fold.ReadSeeds` | crates/execution/src/fold.rs:168-181 | reads every party's account, hands over when one is missing, and fails only on blocks that fail serially |
| `Fold.Speculate` | crates/execution/src/fold.rs:133-209 | takes only blocks it can fold; its result is serial and it never rejects a block that runs serially |
| `Execution.Database.Commit` | crates/state/src/memory.rs:168-171 | publishes all diffs in order on the expected parent, or nothing |
| `Execution.ExecuteSerial` | crates/execution/src/parallel_payment.rs:185-211 | the reference result and published state |
| `Execution.ValidateDeclarations` | crates/execution/src/parallel_payment.rs:474-484 | passes exactly when every declaration covers the keys its transaction can reach |
| `Execution.Speculate` | crates/execution/src/parallel_payment.rs:260-373 | either executor yields serial outputs, and succeeds on covered blocks that run serially |
| `Execution.CappedSerial` | crates/execution/src/parallel_payment.rs:171-179 | summing usage after speculation stops exactly where the capped session would stop |
| `Execution.PublishedIsSerialEnd` | crates/execution/src/parallel_payment.rs:180-182 | committing the outputs' diffs gives the serial end state |
| `Execution.SerialSucceedsIsReference` | crates/execution/src/parallel_payment.rs:185-211 | the reference succeeds exactly when every transaction succeeds in block order and their total fits the capacity |
| `Execution.ExecuteParallel` | crates/execution/src/parallel_payment.rs:121-183 | for every worker count and accelerator the answer and published state are those of serial execution, with nothing published on failure; a local native failure is reported only if a transaction of the block meets one |
| `Codec.LengthBack` | crates/codec/src/lib.rs:46-73 | every length in bounds is read back from its prefix |
| `Codec.LengthForth` | crates/codec/src/lib.rs:57-73 | only the shortest prefix of a length is accepted |
| `Codec.BytesBack` | crates/codec/src/lib.rs:76-91 | length-prefixed bytes are read back |
| `Codec.BytesForth` | crates/codec/src/lib.rs:82-91 | accepted length-prefixed bytes are their own encoding |
| `Codec.KeysBack` | crates/codec/src/protocol.rs:139-142 | key lists are read back and occupy at least one byte per key |
| `Codec.ParseOfEncode` | crates/codec/src/protocol.rs:131-215 | decoding an in-bounds encoding returns the transaction if its version is the supported one, and refuses it as unsupported otherwise |
| `Codec.EncodeOfParse` | crates/codec/src/protocol.rs:148-215 | every accepted byte string is the encoding of an in-bounds transaction of the supported version |
| `Layout.HeadIff` | crates/codec/src/protocol.rs:131-171 | the head is accepted exactly with "ALTX", version, chain, sender, nonce, expiry and lane at bytes 0, 4, 8, 12, 44, 52 and 60, little-endian, lane 0, 1 or 2 |
| `Layout.DecodesIffLayout` | crates/codec/src/protocol.rs:148-215 | bytes decode to a transaction exactly if every field stands at its offset, to the last byte |
| `Layout.EncodesToLayout` | crates/codec/src/protocol.rs:123-146 | the encoder puts every field exactly there |
| `Layout.RefusedForFirstFault` | crates/codec/src/protocol.rs:148-215 | any other string is refused with the error of its first fault in reading order |
| `Codec.EstimateIsExact` | crates/transaction/src/validator.rs:161-180 | the size estimate is the exact encoded size |
| `Wire.Output.Transaction` | crates/codec/src/protocol.rs:123-146 | appends exactly the canonical bytes after what the buffer held |
| `Wire.Decoder.ReadExact` | crates/codec/src/decoder.rs:33-44 | reads and advances exactly when enough bytes remain |
| `Wire.Decoder.ReadLength` | crates/codec/src/lib.rs:57-73 | agrees with the length layout, errors included |
| `Wire.Decoder.CollectKeys` | crates/codec/src/protocol.rs:196-199 | the second pass over the keys cannot fail once the first succeeded |
| `Wire.Decode` | crates/codec/src/protocol.rs:148-215 | the two-cursor decoder returns the transaction or the first error of the layout |
| `Registry.ValidateName` | crates/contract-sdk/src/registry.rs:233-252 | accepts exactly canonical names that are not confusable with a reserved one |
| `Registry.RegistryKey` | crates/contract-sdk/src/registry.rs:255-262 | writes the key into its buffer exactly for valid names |
| `Registry.LeaseFits` | crates/contract-sdk/src/registry.rs:117-136 | every valid lease fits its 379-byte buffer |
| `Registry.LeaseBack` | crates/contract-sdk/src/registry.rs:91-136 | stored bytes of a valid lease decode to it |
| `Registry.LeaseForth` | crates/contract-sdk/src/registry.rs:91-116 | whatever decodes is a valid lease and its only encoding |
| `Registry.CallFits` | crates/contract-sdk/src/registry.rs:192-229 | every valid call fits its 340-byte buffer |
| `Registry.CallBack` | crates/contract-sdk/src/registry.rs:164-229 | encoded calls decode to themselves |
| `Registry.CallForth` | crates/contract-sdk/src/registry.rs:164-189 | accepted calls are valid and are their only encoding |
| `Registry.WriteLease` | crates/contract-sdk/src/registry.rs:117-136 | writes exactly the lease bytes and nothing behind them |
| `Registry.NextIsValid` | crates/contract-sdk/src/registry.rs:276-331 | every lease the transition produces is valid |
| `Registry.Transition` | crates/contract-sdk/src/registry.rs:276-331 | writes the next lease, or leaves the buffer untouched on deletion and on every error |
| `RegistryLayout.ConfusableIffOneKey` | crates/contract-sdk/src/registry.rs:255-273 | names share a storage key exactly if they differ only by a digit and the letter it resembles |
| `RegistryLayout.KeysAreTagged` | crates/contract-sdk/src/registry.rs:255-261 | keys are "dns/v1/" and one byte per letter |
| `RegistryLayout.NameRules` | crates/contract-sdk/src/registry.rs:233-252 | a name is 1 to 63 small letters, digits and inner hyphens, not confusable with a reserved name |
| `RegistryLayout.RecordRules` | crates/contract-sdk/src/registry.rs:60-73 | a record is 32 bytes that are not all zero, or 1 to 256 printable characters |
| `RegistryLayout.LeaseIff` | crates/contract-sdk/src/registry.rs:91-117 | stored bytes stand for a lease exactly if its fields stand at their offsets |
| `RegistryLayout.LeaseErrors` | crates/contract-sdk/src/registry.rs:91-117 | a lease is refused for its name exactly if tag and name field are there and the name is not one; otherwise for its encoding |
| `RegistryLayout.CallIff` | crates/contract-sdk/src/registry.rs:164-189 | bytes stand for a call exactly if action number, name and the action's fields stand at their offsets |
| `RegistryLayout.CallErrors` | crates/contract-sdk/src/registry.rs:164-189 | which refused calls are refused for their name |
| `RegistryWire.DecodeLease` | crates/contract-sdk/src/registry.rs:91-116 | the shrinking reader decodes the lease layout, first error included |
| `RegistryWire.DecodeCall` | crates/contract-sdk/src/registry.rs:164-189 | the shrinking reader decodes the call layout, first error included |
| `RegistryWire.WriteCall` | crates/contract-sdk/src/registry.rs:192-229 | succeeds exactly for valid names and records and writes exactly the call bytes |
| `RegistryEffects.OthersUntouched` | crates/contract-sdk/src/registry.rs:276-331 | only the called name's entry can change, and a refused call changes nothing |
| `RegistryEffects.RegisterEffect` | crates/contract-sdk/src/registry.rs:289-303 | registration succeeds exactly for a proper caller on a free or expired name within the time limits, and stores caller, height, expiry and record |
| `RegistryEffects.OwnerEffect` | crates/contract-sdk/src/registry.rs:304-330 | update, renewal, transfer and release succeed exactly for the owner of the live lease under its exact name, and change exactly record, expiry or owner, or end the lease |
| `RegistryEffects.ReleaseRemoves` | crates/contract-sdk/src/registry.rs:328-328 | a released name is gone from the store |
| `RegistryEffects.RefusedForFirstReason` | crates/contract-sdk/src/registry.rs:276-331 | the error is that of the first reason in reporting order |
| `RegistryEffects.CorruptEntryBlocks` | crates/contract-sdk/src/registry.rs:287-287 | stored bytes that are no lease block every proper call with the decoder's error |
| `RegistryEffects.TransferHandsOver` | crates/contract-sdk/src/registry.rs:322-327 | over every run, after a transfer the old owner is refused and every permitted call of the new owner takes effect |
| `RegistryEffects.FreeNamesAreTaken` | crates/contract-sdk/src/registry.rs:289-303 | over every run, a name that is released or expired can be taken by anybody under any confusable spelling |
| `RegistryRuns.ReachableInv` | crates/contract-sdk/src/registry.rs:276-338 | in every run at non-decreasing heights all stored bytes decode, sit under their name's key and expire within the maximum duration |
| `RegistryRuns.BoundedLeases` | crates/contract-sdk/src/registry.rs:333-338 | a live lease never has more than 1000000 blocks left and always fits its buffer |
| `RegistryRuns.OnlyOwnerChanges` | crates/contract-sdk/src/registry.rs:288-309 | only the owner, using the exact name and not a registration, changes or removes a live lease |
| `RegistryRuns.LeaseIsSafe` | crates/contract-sdk/src/registry.rs:276-331 | while it lives, a lease without owner calls stays byte for byte the same through any run |
| `RegistryRuns.KeysAreSkeletons` | crates/contract-sdk/src/registry.rs:255-274 | names share a key exactly when they are confusable |
| `RegistryRuns.ConfusableNamesAreOneEntry` | crates/contract-sdk/src/registry.rs:255-274 | confusable names never hold two leases at once |

## Left out

- Command line, daemon, networking, mempool, storage files, configuration, display and error texts.
- Ed25519, BLAKE2s and ECVRF: signatures, addresses, roots and leaf hashes are symbolic and injective; VRF proof checks in building a sampler are not modelled.
- WASM and Trocto engines, the artifact cache and the snapshot cache: the engine is the function described above, the cache is its parent.
- Contract fee and nonce handling outside the engine hypothesis; conservation is stated for payments.
- Commit sealing: a sealed commit is an ordinary commit of the same diffs.
- Worker panics, poisoned locks and channel failures; a pool that cannot start is modelled as an input.
- Byte formats of histories, history proofs, certificates, evidence, block headers and the journal file; they repeat the layout proofs given for transactions and leases.
- Signing of message kinds other than votes and proposals, and the proposer's VRF.
- Admission and governance certificates: the same batched quorum check.
- PoTB scoring, policy reweighting (`with_policy_weights`) and producer draws: easy next to the draws that are modelled.
- The prefetch hints and the demonstration validator, scheduler, sampler and executor.
- History.CommitteeHistory.Append: the refusal of a zero chain or genesis when a history is created is not modelled; the class starts from an accepted namespace.
- Committee.Authenticate: which public keys are malformed or weak is an input, one verdict per key.
- Signer.DurableSigner.SignProtected: the limit on journal entries, the length of the signed message and the rollback anchor that witnesses each write are not modelled.
- Execution.Database.Commit: whether the store accepts the batch of changes is a function of state and changes; its size limits are not spelled out.
- Wire.Output.Transaction: the encoder's panic on a length that does not fit 32 bits is not modelled; such a length is written modulo 32 bits.
- Progress.HeightCanComplete: says that a height can be finished, not that it is within some time; message delivery and timers are choices of the continuation.
- Execution.ExecuteParallel: the payload decoders of payments and contracts are represented by already decoded payloads, with one value for everything malformed.
- Draws.Draw: the hash behind the entropy is any function of seat and attempt.
