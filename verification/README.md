# Verified model of the receipt anchoring, mailbox, attestation and approval core

A Dafny model of the parts of the repository whose job is to be trusted by somebody else: the
Merkle batches that anchor receipts, the crash-prone pipeline that publishes them, the checkpoint
consistency verifier, the agent mailbox with its two stores, the TPM quote verifier, the collusion
detectors, the executor approval gate, and the canonical JSON that receipts are hashed over.

SHA-256 is an arbitrary function to 64-character digests. Nothing assumes that it is injective:
where the code relies on that, the result is "the property holds, or here are two different
strings, one from each side, with the same digest". Signatures, key parsing, date parsing and the
canonicalizers that live in other packages are parameters with the few laws stated beside them
(`Honest`, `Plain`). Clocks, databases, the file system and the chain are steps that may fail.

| file | component |
|---|---|
| `Unicode.dfy`, `Common.dfy` | code points and UTF-16 units; options, digests, string order, insertion-ordered maps, joining with a separator |
| `MerkleShape.dfy`, `ReceiptMerkle.dfy` | the two tree constructions and the receipt batch tree |
| `Consistency.dfy`, `ConsistencyForgery.dfy` | checkpoint consistency proofs, and why their seed must be a digest |
| `AnchorPipeline.dfy`, `AnchorUnfenced.dfy`, `AnchorWorker.dfy` | the anchor protocol as a state machine, with and without the lease, and one worker's pass as code |
| `MailboxRecords.dfy`, `MailboxVerdicts.dfy`, `MailboxSizes.dfy` | envelopes, records and their checks; what the checks decide, field by field; the counted sizes of the documents |
| `MailboxStores.dfy`, `MailboxRuns.dfy`, `MailboxQueue.dfy` | the two stores, runs of store operations, the per-key queue |
| `MailboxAgreement.dfy` | exactly when the two stores agree, and what a file that fails its check does |
| `MailboxService.dfy`, `MailboxDelivery.dfy`, `MailboxCalls.dfy` | the re-checking list, runs of the whole service, `deliver` and `acknowledge` run alone |
| `MailboxAnyStore.dfy` | `acknowledge` over a store that may answer anything |
| `MailboxReceipts.dfy`, `MailboxAnswers.dfy` | interleaved `deliver` and `acknowledge` calls |
| `MailboxConcrete.dfy`, `MailboxSpoiledRun.dfy`, `MailboxConcreteRuns.dfy` | one concrete environment, and the failing runs of the mailbox carried out in it |
| `TpmBytes.dfy`, `TpmQuote.dfy`, `TpmCursor.dfy`, `TpmSignature.dfy` | the quote format, its parser, DER signatures |
| `TpmPolicy.dfy`, `TpmTrust.dfy`, `TpmVerify.dfy` | what the caller pins, what a trusted quote consists of byte by byte, the verifier |
| `CollusionRings.dfy`, `CollusionTiming.dfy` | rings, bilateral pairs, bursts |
| `ApprovalGate.dfy`, `ApprovalEvidence.dfy`, `ApprovalCalls.dfy`, `ApprovalRuns.dfy` | the gates, what passing them shows, the calls with the replay store, and concurrent presentations of evidence |
| `JsonText.dfy`, `CanonicalJson.dfy`, `JsonEquality.dfy`, `ReceiptChain.dfy` | canonical JSON and the hash chain |
| `BuildAttestation.dfy` | build attestation records |

## Where the code falls short of its promise

Each of these is proved of the code as it is, together with the condition under which it does hold.

- The consistency verifier takes proof entries of any length. A node hash does not mark where its
  left part ends, so moving one character from the second entry to the first makes it accept, for
  every old size that is no power of two, a 64-character old root that is not the root of the prefix
  (`ConsistencyForgery.SeedLengthMatters`, `ConsistencyForgery.FourEntryForgery`). It is sound if the
  hash the walk starts from is 64 characters long, whatever the other entries are
  (`Consistency.ConsistencySound`).
- `isPowerOfTwo` uses a 32-bit `&`. An honest consistency proof from an old size that is no power of
  two is refused when the size is above 2^32 and its low word is zero or a power of two; all others
  are accepted (`Consistency.ConsistencyRoundTrip`, `Consistency.FirstMisjudged`).
- A record appended to a transparency log verifies exactly when the number of earlier entries has
  at most 20 one-bits. The first log that breaks has 2^21 - 1 earlier entries
  (`BuildAttestation.AssembledIsValid`, `BuildAttestation.FirstLogTooLong`).
- A mailbox delivery whose signed value has one of the last four node counts or one of the last 137
  string byte counts that fit makes a record that does not: an envelope of 9980 to 9983 nodes, or
  262,008 to 262,144 string bytes in the delivery value (`MailboxDelivery.SizeGaps`). Over the memory
  store it is answered REFUSED, stays in the store, and that recipient's list fails from then on
  (`MailboxDelivery.OversizedBlocksTheList`; carried out from an empty mailbox in
  `MailboxConcrete.OversizedOccurs`). Over the file store the put throws and leaves a file behind that
  fails its check, and from then on every put and the list of every recipient throw
  (`MailboxAgreement.OversizedBlocksEveryone`, `MailboxAgreement.PoisonedForGood`).
- The two stores take any record, and the file store refines the memory store when every record put
  passes the stored-record check (`MailboxRuns.FileRefinesMemory`). In general a run followed by a list
  is answered alike exactly when every record put where both keys are free passes that check, and no
  record put finds two different records under its id and in its slot of which exactly one has its
  digest: memory looks at the id first, the file store at the slot
  (`MailboxAgreement.RefinesExactly`, `MailboxAgreement.SplitWitness`).
- An `acknowledge` call can throw after its own acknowledgement was written: exactly when, at its
  confirming list, some record of the recipient is not readable as of the call's read time. With
  unchanged keys and no oversized record, that is a record with a later acknowledgement, such as one
  written by a call that began later (`MailboxAnswers.ConfirmExactly`,
  `MailboxAnswers.ThrowsExactlyOnLaterAck`; from any good state in `MailboxSpoiledRun.SpoiledConfirmRun`
  and from an empty mailbox in `MailboxConcreteRuns.SpoiledOccurs`). In the same way a write that finds
  a later acknowledgement throws (`MailboxAnswers.LateWriteExactly`), and a re-delivery whose put lands
  after a later acknowledgement is refused although the envelope is held
  (`MailboxReceipts.ReceiptExactly`).
- Evidence that passes the approval gate can be executed on twice exactly when it is signed for no
  receipt id (`ApprovalRuns.TwiceIffUnkeyed`).
- Ring detection is complete exactly when joining ids with `>` tells the canonical cycles apart, and
  pair detection exactly when joining with `|` tells the mutual pairs apart
  (`CollusionRings.CompleteIffKeysTellApart`, `CollusionRings.PairsCompleteIffKeysTellApart`,
  `CollusionRings.SharedKeyHidesARing`, `CollusionRings.SharedKeyHidesAPair`).
- `json.dumps` writes a surrogate pair given as two code points like the joined code point, so the
  canonical text is injective exactly up to that (`JsonText.DumpsExact`, `JsonEquality.CanonicalIffSame`).
- If the lease lapses between fetch and claim, two workers can publish one receipt twice
  (`AnchorPipeline.LapseBeforeClaimPublishesTwice`). They cannot, however the lease behaves, if every
  published batch claimed all its receipts, which the code does not look at: the update skips the
  others silently (`AnchorUnfenced.FullClaimsPublishOnce`, `AnchorUnfenced.FullClaimByRowCount`).
- Two full 66-byte ECDSA parameters are within the parser's limit and still refused
  (`TpmSignature.WideParametersRefused`).

## Model

| member | source | states |
|---|---|---|
| `Common.LexExactly` | lib/collusion-monitor.ts:76 | the order that sorting uses: a prefix comes first, otherwise the first difference decides |
| `Unicode.Utf16OfOne` | conformance/verify_hashes.py:38-39 | a code point up to U+FFFF is its own unit, every other is a surrogate pair that shares its remaining twenty bits |
| `MerkleShape.LargestPowerOfTwoLessThan` | attestation/merkle-log.ts:22-26 | the loop returns the one power of two k with k < n <= 2k |
| `MerkleShape.IsPow2Exactly` | attestation/merkle-log.ts:22-26 | the test used for it holds exactly of the powers of two |
| `MerkleShape.LayeredRootIsMth` | lib/blockchain.ts:75-97 | for every non-empty list and every pairing function the layered tree that promotes an odd node ends in the root of section 2.1 of RFC 6962 |
| `MerkleShape.LayeredProofIsPath` | lib/blockchain.ts:105-129 | reading siblings off the layers gives exactly the audit path of section 2.1.1 of RFC 6962, at every index |
| `MerkleShape.PathUp` | attestation/merkle-log.ts:33-43 | an audit path is the sibling in the bottom layer followed by the audit path of the parent in the next layer |
| `MerkleShape.PathFolds` | attestation/merkle-log.ts:33-43 | folding an audit path from its leaf rebuilds the root |
| `MerkleShape.PathLength` | attestation/merkle-log.ts:33-43 | an audit path has at most ceil(log2 n) steps |
| `MerkleShape.LastPathLength` | attestation/merkle-log.ts:33-43 | the path of the newest leaf has one step for each one-bit of its index |
| `ReceiptMerkle.BuildMerkleTree` | lib/blockchain.ts:61-98 | root and every layer of both versions, the empty and the single-leaf case included, against the RFC 6962 recursion |
| `ReceiptMerkle.RootByParts` | lib/blockchain.ts:32-52 | what is hashed: a v2 root is the digest of byte 0 and the leaf, or of byte 1, the left root and the right root; a v1 leaf is its own root and the smaller of two child digests goes first; the left part is the largest power of two that leaves a right part |
| `ReceiptMerkle.GenerateMerkleProof` | lib/blockchain.ts:105-129 | null exactly for no layers or an index out of range, otherwise the siblings on the way up |
| `ReceiptMerkle.GeneratedIsPath` | lib/blockchain.ts:105-129 | the proof generated from a built tree is the RFC 6962 audit path |
| `ReceiptMerkle.VerifyMerkleProof` | lib/blockchain.ts:135-158 | accepts exactly non-empty hashes, at most 20 well-formed steps, and a fold that meets the root |
| `ReceiptMerkle.AcceptsExactly` | lib/blockchain.ts:135-158 | the same without folding: at most 20 labelled non-empty steps and a chain of digests, each hashed from the one before and its step on the labelled side, from the leaf to the root |
| `ReceiptMerkle.RoundTripV2` | lib/blockchain.ts:135-158 | a generated v2 proof is accepted exactly when it has at most 20 steps and the leaf is not empty |
| `ReceiptMerkle.RoundTripV1` | lib/blockchain.ts:135-158 | the same for v1 over non-empty hashes |
| `ReceiptMerkle.ProofDepth` | lib/blockchain.ts:139-140 | at most ceil(log2 n) steps, so up to 2^20 leaves always fit and a batch of 1000 needs at most 10 |
| `ReceiptMerkle.VerdictIgnoresLabelsV1` | lib/blockchain.ts:32-35 | under sorted pairing any relabelling of left and right leaves the v1 verdict unchanged |
| `ReceiptMerkle.Locate` | lib/blockchain.ts:46-52 | from any proof that folds to the v2 root it computes the index proved, with proof and leaf equal to the generated ones, or a collision between a string the builder hashed and one the verifier hashed |
| `ReceiptMerkle.AcceptedIsGenerated` | lib/blockchain.ts:135-158 | v2 soundness: an accepted proof is the generated proof of an index that holds the leaf, or a collision is exhibited |
| `Consistency.PowerOfTwoTest` | packages/verify/src/consistency.ts:55-57 | what the 32-bit test accepts: right below 2^32, right on every power of two, and wrong on every other size whose low word is zero or a power of two |
| `Consistency.FirstMisjudged` | packages/verify/src/consistency.ts:55-57 | 2^32 + 1 is the smallest size taken for a power of two wrongly |
| `Consistency.VerifyCheckpointConsistency` | packages/verify/src/consistency.ts:81-147 | the verifier with its three loops accepts exactly what the specification walk accepts |
| `Consistency.GuardsExactly` | packages/verify/src/consistency.ts:81-103 | nothing is accepted with sizes out of order, an empty root or entry, more than 64 entries or an empty proof for different sizes; equal sizes are accepted exactly with equal roots and no proof |
| `Consistency.SubproofUp` | packages/verify/src/consistency.ts:170-180 | for an even old size the proof is the same as one layer higher |
| `Consistency.SubproofOdd` | packages/verify/src/consistency.ts:170-180 | for an odd old size the proof is the last old leaf and its audit path |
| `Consistency.OldRootFromPath` | packages/verify/src/consistency.ts:128-142 | the left siblings of a leaf rebuild the root of the tree that ended with it |
| `Consistency.HonestWalkAccepts` | packages/verify/src/consistency.ts:117-146 | the prover's list is accepted for every pair of sizes exactly when the old size is judged right |
| `Consistency.ConsistencyRoundTrip` | packages/verify/src/consistency.ts:160-167 | over digests: accepted exactly when at most 64 entries and the size is judged right; every log up to 2^63 fits |
| `Consistency.ConsistencySound` | packages/verify/src/consistency.ts:81-147 | a checkpoint that verifies against a log of digests, from a seed that is a digest and with otherwise arbitrary entries, is the root of a prefix of it, with the prover's own list for a rightly judged size, or two node preimages collide, one from the log and one from the verifier |
| `ConsistencyForgery.SeedLengthMatters` | packages/verify/src/consistency.ts:99-146 | without that the result fails at every rightly judged size: the honest list with one character moved is accepted, and for sizes that are no power of two the old root it proves is a digest that equals the prefix's root only through an exhibited collision |
| `ConsistencyForgery.FourEntryForgery` | packages/verify/src/consistency.ts:99-146 | the forged checkpoint of three entries for a log of four, for every hash function |
| `AnchorPipeline.BulkUpdateEffect` | supabase/migrations/075_bulk_update_receipt_anchors.sql:11-32 | the bulk update claims exactly the listed free receipts, each with its own proof, and touches nothing else |
| `AnchorPipeline.EveryStepGrows` | lib/blockchain.ts:323-430 | no step changes a receipt hash, an existing claim or a row's root |
| `AnchorPipeline.StepKeepsInv` | lib/blockchain.ts:323-462 | every step of every worker, failures and crashes included, keeps the invariant |
| `AnchorPipeline.RunKeepsInv` | lib/blockchain.ts:323-462 | and so does every run |
| `AnchorPipeline.AnchorSafety` | lib/blockchain.ts:323-462 | with the lease held from fetch through claim, over every run: no receipt in two published batches, every published root has its row and is the root of its receipts' hashes, every claimed receipt has a row whose root accepts its stored proof |
| `AnchorPipeline.LapseBeforeClaimPublishesTwice` | lib/blockchain.ts:438-462 | a run in which the lease lapses between fetch and claim and a receipt is published twice |
| `AnchorUnfenced.FullClaimsPublishOnce` | lib/blockchain.ts:378-398 | over every run, however the lease behaves: if every published batch held all its receipts, no receipt is published twice |
| `AnchorUnfenced.FullClaimByRowCount` | supabase/migrations/075_bulk_update_receipt_anchors.sql:21-30 | a batch holds all its receipts exactly when the bulk update changed one row for each of them |
| `AnchorWorker.BuildProofs` | lib/blockchain.ts:336-350 | root and all proofs computed from the layered tree are the RFC 6962 ones |
| `AnchorWorker.System.ClaimReceipts` | lib/blockchain.ts:378-391 | the row by row update is the bulk update the safety proof speaks about |
| `AnchorWorker.System.UnderLease` | lib/blockchain.ts:323-430 | the answer and the writes of a pass, exactly: no receipts if and only if the fetch worked and was empty; anchored, with the batch, the number and the root of the fetched receipts, if and only if nothing failed and the batch id is new; of the row, the claims, the transaction and the confirmation exactly those before the failure landed, the claims giving each fetched receipt its own position and proof, the transaction naming exactly the fetched receipts; and the pass is a run of the state machine |
| `AnchorWorker.System.RunAnchorBatch` | lib/blockchain.ts:438-462 | the same with lease and release: already running if and only if the lease is held by somebody, nothing is written without it, and it is kept only where the release fails |
| `MailboxQueue.FifoMutex` | lib/agent-mailbox.ts:298-311 | in every interleaving at most one operation per key runs, and operations of a key start in arrival order |
| `MailboxQueue.EntryRemovedOnlyWhenIdle` | lib/agent-mailbox.ts:304-310 | the map entry is removed only by the last call of its key, when all its calls are done |
| `MailboxQueue.NeverStuck` | lib/agent-mailbox.ts:298-311 | while a call is unfinished some call of its key can move, whether or not earlier operations threw |
| `MailboxStores.MemoryStore.Put` | lib/agent-mailbox.ts:528-551 | id key first, then thread slot; new state and answer |
| `MailboxStores.MemoryStore.Acknowledge` | lib/agent-mailbox.ts:558-571 | first write only, checked before it is written |
| `MailboxStores.FileStore.Put` | lib/agent-mailbox.ts:774-802 | reads and checks every file, thread slot first, then exclusive creation; throws on a file that fails its check or a record that cannot be written |
| `MailboxStores.FileStore.List` | lib/agent-mailbox.ts:803-815 | throws exactly when some file fails its check |
| `MailboxStores.FileStore.Acknowledge` | lib/agent-mailbox.ts:816-845 | the same first write, on the file |
| `MailboxStores.PutRefines` | lib/agent-mailbox.ts:774-802 | for a checked record: same stored, duplicate or refused verdict from both stores, same record unless refused, still in step, although the keys are tested in opposite orders |
| `MailboxStores.ListRefines` | lib/agent-mailbox.ts:803-815 | both stores list the same records, each once, in sequence order |
| `MailboxStores.ListIsStable` | lib/agent-mailbox.ts:552-557 | a list is in sequence order and has, for every sequence number, the recipient's records with that number in the order the store has them |
| `MailboxStores.AckRefines` | lib/agent-mailbox.ts:816-845 | both stores acknowledge alike and stay in step |
| `MailboxAgreement.PutsAgreeExactly` | lib/agent-mailbox.ts:774-802 | from stores in step and for an arbitrary record: one verdict, and one record unless refused, if and only if it does not find two records under its id and in its slot of which exactly one has its digest and, when both keys are free, it can be canonicalized |
| `MailboxAgreement.SplitWitness` | lib/agent-mailbox.ts:528-551 | whenever both stores hold two records of one recipient there is a record that is a duplicate to the memory store and a thread conflict to the file store |
| `MailboxAgreement.UncheckedPutPoisons` | lib/agent-mailbox.ts:740-761 | a record that both keep and that fails checkedStoredEnvelope leaves a failing file; the put itself throws exactly when the record cannot be canonicalized |
| `MailboxAgreement.PoisonedForGood` | lib/agent-mailbox.ts:754-761 | once a file fails its check, every later put and every later list of every run throws and changes nothing, and no acknowledgement repairs it |
| `MailboxAgreement.OversizedBlocksEveryone` | lib/agent-mailbox.ts:740-755 | a record over a limit is kept by the memory store; the file store throws on it and then on every put and on the list of every recipient |
| `MailboxAgreement.RefinesExactly` | lib/agent-mailbox.ts:763-848 | for every sequence of operations on arbitrary records, followed by a list: the stores answer alike if and only if every put was fine where it happened, or two hashed strings collide |
| `MailboxRuns.FileRefinesMemory` | lib/agent-mailbox.ts:763-848 | for every sequence of put, list and acknowledge in which every record put is checked, the stores hold the same records and answer alike, or two of the hashed strings collide |
| `MailboxRuns.RunEvolves` | lib/agent-mailbox.ts:468-471 | records never leave, delivery fields never change, an acknowledgement once set never changes |
| `MailboxRuns.FirstWriteWins` | lib/agent-mailbox.ts:558-571 | any two answers of acknowledge for one envelope in a run are the same record |
| `MailboxVerdicts.IdentifierExactly` | lib/agent-mailbox.ts:37 | an identifier is 3 to 256 letters, digits and the five other marks, starting with a letter or digit |
| `MailboxVerdicts.EnvelopeAcceptedExactly` | lib/agent-mailbox.ts:386-462 | accepted if and only if the sender is listed with the signer's key and active, every field is of its form, the recipient is the expected one, creation precedes expiry with the given time between them, the payload has its digest, and the signature over the envelope without its signature verifies under the listed key; the answer is the envelope's digest and that key |
| `MailboxVerdicts.RefusalNamesItsFault` | lib/agent-mailbox.ts:386-448 | each refusal reason names something that is wrong with that envelope |
| `MailboxVerdicts.CheckedExactly` | lib/agent-mailbox.ts:595-659 | what checkedStoredEnvelope lets through, field by field: names, digests and times of record, envelope, sender, binding and acknowledgement fit each other |
| `MailboxVerdicts.StoredVerifiedExactly` | lib/agent-mailbox.ts:661-705 | verifyStoredEnvelope holds if and only if the envelope is authentic under the recorded sender key at the recorded time, and the delivery and any acknowledgement, by then not in the future, are signed with keys of this mailbox |
| `MailboxSizes.SizesAreOfTheDocument` | packages/verify/src/strict-json.ts:157-246 | the values, string bytes and nesting that decide what fits are those of each document written out with its member names |
| `MailboxService.VerifiedList` | lib/agent-mailbox.ts:1018-1051 | for an arbitrary list: returns exactly when every value passes and values sharing a key are identical; the result is the listed values once each, pairwise apart in both keys, and each is believed: coherent, this recipient's, its envelope signed under the recorded sender key, delivery and acknowledgement signed by this mailbox |
| `MailboxService.PassesExactly` | lib/agent-mailbox.ts:1024-1030 | a listed value passes if and only if it is believed in that sense |
| `MailboxService.FirstOccurrencesInOrder` | lib/agent-mailbox.ts:1046-1051 | of two values in the result the first was listed before the second ever was |
| `MailboxDelivery.ReceiptNeedsRecord` | lib/agent-mailbox.ts:715-738 | whatever the store answers, ACCEPTED if and only if it showed exactly the delivered record and that record verifies; DUPLICATE only for a verified record of the delivered envelope |
| `MailboxDelivery.ConcludeExactly` | lib/agent-mailbox.ts:715-738 | which receipt follows each answer of the store: the shown record must be believed, and ACCEPTED, DUPLICATE and the two conflicts each hold exactly when it bears the claimed outcome out; anything else is an invalid store result |
| `MailboxDelivery.VerificationRepeats` | lib/agent-mailbox.ts:677-690 | the recorded directory entry and time repeat the delivery-time verdict, whatever the directory says later |
| `MailboxDelivery.PreparedIsGood` | lib/agent-mailbox.ts:1064-1122 | every record that deliver hands to the store passes verifyStoredEnvelope, and checkedStoredEnvelope if it can be canonicalized |
| `MailboxDelivery.GoodStaysGood` | lib/agent-mailbox.ts:661-705 | a later clock and added mailbox keys do not change that |
| `MailboxDelivery.AckedIsGood` | lib/agent-mailbox.ts:692-705 | nor does writing a verifying acknowledgement |
| `MailboxDelivery.CreatedAckVerifies` | lib/agent-mailbox.ts:495-519 | an acknowledgement made by the service verifies from its read time on |
| `MailboxDelivery.CreatedAckExactly` | lib/agent-mailbox.ts:495-519 | it names the record, its binding's digest, the mailbox and the read time, and is signed as such with the current key; it is missing only where a value cannot be canonicalized |
| `MailboxDelivery.SharesKeyExactly` | lib/agent-mailbox.ts:1032-1040 | two coherent records share a key of the list exactly when they have one recipient and either one envelope id or one sender, thread and sequence number |
| `MailboxDelivery.StartIsGood` | lib/agent-mailbox.ts:953-1000 | a configured service over an empty store satisfies the invariant of all runs |
| `MailboxDelivery.StepKeepsGood` | lib/agent-mailbox.ts:953-1234 | every step of the service (clock, key rotation, directory change, interleaved deliver and acknowledge) keeps all stored and in-flight values good |
| `MailboxDelivery.RunKeepsGood` | lib/agent-mailbox.ts:953-1234 | and every run does, with keys, time and records only growing |
| `MailboxDelivery.AcceptedExactly` | lib/agent-mailbox.ts:1064-1173 | with an honest store a delivery is ACCEPTED if and only if neither key is taken and the whole record can be canonicalized |
| `MailboxDelivery.OnceAcceptedAlwaysListable` | lib/agent-mailbox.ts:595-705 | a record once accepted is, in every later state of every run, in the store with its delivered fields and passes both checks |
| `MailboxDelivery.DeliveryTakesHold` | lib/agent-mailbox.ts:1064-1122 | beginning a delivery and putting the record it made leaves that record in the store, if both keys are free |
| `MailboxDelivery.AcknowledgementTakesHold` | lib/agent-mailbox.ts:1193-1210 | beginning an acknowledgement and writing it leaves the record with it, if it fits |
| `MailboxDelivery.AcknowledgementStays` | lib/agent-mailbox.ts:1178-1234 | once a record carries an acknowledgement every later state holds that same record |
| `MailboxDelivery.ListingUsable` | lib/agent-mailbox.ts:1018-1051 | in every reachable state the list can be read if and only if each of the recipient's records can be canonicalized, and is then all of them, each once, in sequence order |
| `MailboxDelivery.RecordOutgrowsDelivery` | lib/agent-mailbox.ts:473-493 | the stored record has four values and 137 string bytes more than the delivery value that was signed, and one level less |
| `MailboxDelivery.SizeGaps` | lib/agent-mailbox.ts:129-130 | a delivery that can be signed makes a record over a limit exactly in the last four node counts and the last 137 string byte counts |
| `MailboxDelivery.AckOutgrowsRecord` | lib/agent-mailbox.ts:558-571 | a signed acknowledgement adds twelve values and its own bytes, and one that does not fit is refused with the record unchanged |
| `MailboxDelivery.OversizedBlocksTheList` | lib/agent-mailbox.ts:1123-1137 | over the memory store, a delivery whose record is over any limit is answered REFUSED, stays in the store, and the recipient's list fails in every later state of every run |
| `MailboxConcrete.SampleIsHonest` | packages/verify/src/strict-json.ts:157-173 | an environment whose printer is injective and refuses exactly the values over a limit meets every assumption made about the mailbox's surroundings |
| `MailboxConcrete.OversizedOccurs` | lib/agent-mailbox.ts:1123-1137 | in it, from an empty mailbox, a delivery of an envelope of 9980 nodes is refused, kept, and blocks the list |
| `MailboxCalls.Deliver` | lib/agent-mailbox.ts:1064-1173 | a call with nothing in between: a record is made only of an envelope whose sender is listed and active and whose signature verifies under the listed key; ACCEPTED if and only if it is made, both keys are free and it canonicalizes; DUPLICATE if and only if the recipient already holds this envelope readably; each conflict if and only if another envelope readably holds that key; the store gains exactly this record when both keys are free and otherwise nothing, so the oversized record is the one refusal that leaves something behind |
| `MailboxReceipts.ReceiptExactly` | lib/agent-mailbox.ts:1123-1173 | in every good state, whatever happened since the call began: ACCEPTED if and only if both keys are free at the put and the record canonicalizes; DUPLICATE if and only if the envelope is held in a record readable with the call's own keys as of its own time, so not one acknowledged later |
| `MailboxReceipts.ReceiptsOverRuns` | lib/agent-mailbox.ts:1064-1173 | over every interleaving of deliveries with everything else the service does: at most one ACCEPTED per recipient and envelope id, its record held as delivered, and every put answered as above |
| `MailboxCalls.Acknowledge` | lib/agent-mailbox.ts:1178-1234 | a call with nothing in between: answers with the acknowledgement the store then holds, writes at most one, and otherwise fails with the store unchanged |
| `MailboxAnyStore.Acknowledge` | lib/agent-mailbox.ts:1178-1234 | against a store that lists and returns whatever it likes: the call answers with an acknowledgement if and only if the list it could read has it, or the store returned a believed record of the same delivery with it and the list read afterwards has it too; and with none if and only if no such record is listed, at first or after a null write |
| `MailboxCalls.ReturnedFitsExactly` | lib/agent-mailbox.ts:1211-1222 | what a store returns from acknowledge is used if and only if it is a believed, acknowledged record of the same delivery |
| `MailboxAnswers.ListExactly` | lib/agent-mailbox.ts:1018-1051 | a list taken with an earlier read time by an earlier instance throws exactly when some record of the recipient is oversized, is signed under a key that instance lacks, or carries a later acknowledgement |
| `MailboxAnswers.AnswersAgree` | lib/agent-mailbox.ts:1178-1234 | over every interleaving of list, write and confirm steps of any number of acknowledge calls with deliveries, clock, rotation and directory changes: all answers for one envelope are one acknowledgement, and the store holds it |
| `MailboxAnswers.FirstWriteFits` | lib/agent-mailbox.ts:1193-1221 | the first write for an envelope either changes nothing and throws, or writes the call's own acknowledgement and goes on to confirm |
| `MailboxAnswers.LateWriteExactly` | lib/agent-mailbox.ts:1193-1221 | a write that finds an acknowledgement changes nothing and goes on if and only if that one is not later than the call's read time and signed under a key the call knows |
| `MailboxAnswers.ConfirmExactly` | lib/agent-mailbox.ts:1223-1234 | the confirming list throws if and only if some record of the recipient is not readable for the call, although the envelope is acknowledged by then; otherwise the call answers with what the store holds |
| `MailboxAnswers.ThrowsExactlyOnLaterAck` | lib/agent-mailbox.ts:1223-1234 | with the keys unchanged and no oversized record, it throws if and only if some record of the recipient carries an acknowledgement later than the call's read time |
| `MailboxAnswers.LaterWriteSpoilsConfirm` | lib/agent-mailbox.ts:1211-1234 | a later call for the same recipient writes between a call's write and its confirmation, and the first call throws with its own acknowledgement stored |
| `MailboxSpoiledRun.SpoiledConfirmRun` | lib/agent-mailbox.ts:1178-1234 | the whole interleaving, begin to confirm, from any good state with two readable unacknowledged records of one recipient whose acknowledgements fit |
| `MailboxConcreteRuns.SpoiledOccurs` | lib/agent-mailbox.ts:1064-1234 | and from an empty mailbox in the concrete environment, through two deliveries |
| `MailboxCalls.FindIsLookup` | lib/agent-mailbox.ts:1183-1185 | finding an envelope id in the list is looking its key up in the store |
| `TpmCursor.Cursor.Take` | attestation/tpm-quote-verifier.ts:98-105 | the next bytes and the rest, or a failure that does not move |
| `TpmCursor.Cursor.Tpm2b` | attestation/tpm-quote-verifier.ts:123-127 | a sized buffer within its limit |
| `TpmCursor.ParsePcrSelection` | attestation/tpm-quote-verifier.ts:136-163 | the two nested loops read exactly what the grammar says |
| `TpmCursor.ParseTpm2Quote` | attestation/tpm-quote-verifier.ts:165-200 | the imperative parser computes the grammar's answer |
| `TpmQuote.OneBankOnly` | attestation/tpm-quote-verifier.ts:143-149 | a second bank never parses, although the count check allows 16 |
| `TpmQuote.ParseSerialize` | attestation/tpm-quote-verifier.ts:165-200 | every well-formed quote, at every bitmap width that holds it, parses back to itself |
| `TpmQuote.SerializeParse` | attestation/tpm-quote-verifier.ts:165-200 | every accepted buffer is to the last byte the serialization of its parsed fields and a bitmap width, with one bank and strictly increasing indices |
| `TpmQuote.AcceptsExactlyWellFormed` | attestation/tpm-quote-verifier.ts:165-200 | the parser accepts exactly the serializations of well-formed quotes |
| `TpmSignature.DerInteger` | attestation/tpm-quote-verifier.ts:202-208 | the stripping loop yields the contents octets, or the size error |
| `TpmSignature.ContentsCanonical` | attestation/tpm-quote-verifier.ts:202-208 | they keep the value, are non-negative and minimal by section 8.3.2 of X.690 |
| `TpmSignature.MinimalDetermined` | attestation/tpm-quote-verifier.ts:202-208 | minimal non-negative contents are determined by the value |
| `TpmSignature.EcdsaDer` | attestation/tpm-quote-verifier.ts:210-214 | the SEQUENCE of both INTEGERs, or the size error |
| `TpmSignature.EcdsaDerDecodes` | attestation/tpm-quote-verifier.ts:210-214 | an independent reader recovers the same two numbers |
| `TpmSignature.EcdsaDerByValue` | attestation/tpm-quote-verifier.ts:210-214 | output and success depend on the two numbers only |
| `TpmSignature.EcdsaDerSucceeds` | attestation/tpm-quote-verifier.ts:229-234 | 60 bytes always fit, and under the 66-byte limit the per-integer check cannot fire |
| `TpmSignature.WideParametersRefused` | attestation/tpm-quote-verifier.ts:229-234 | two full 66-byte parameters are refused |
| `TpmTrust.ReadsBigEndian` | attestation/tpm-quote-verifier.ts:111-121 | numbers are read most significant byte first |
| `TpmTrust.BitIsBinaryDigit` | attestation/tpm-quote-verifier.ts:155-157 | PCR i is the binary digit i mod 8, from the low end, of byte i div 8 of the bitmap |
| `TpmVerify.ParseTpm2Signature` | attestation/tpm-quote-verifier.ts:216-240 | the imperative signature parser computes the grammar's answer |
| `TpmTrust.ParsedSignature` | attestation/tpm-quote-verifier.ts:216-240 | what a signature buffer holds, to the last byte: an RSASSA value of 128 to 1024 bytes, or two ECDSA parameters of 1 to 66 bytes whose DER form is short |
| `TpmTrust.DerDetermined` | attestation/tpm-quote-verifier.ts:202-214 | whatever the independent DER reader takes for the two numbers is the one encoding of them |
| `TpmPolicy.EcdsaSignatureConverts` | attestation/tpm-quote-verifier.ts:216-240 | a TPM ECDSA signature comes out as DER of the same two numbers, refused exactly when the two contents exceed 123 bytes together |
| `TpmPolicy.NormalizeSelection` | attestation/tpm-quote-verifier.ts:242-252 | accepted exactly for a non-empty list of distinct indices up to 31, and then the strictly increasing list of the same members |
| `TpmPolicy.KeysAreTheSelection` | attestation/tpm-quote-verifier.ts:254-264 | counting the keys and finding each selected one pins the key set |
| `TpmTrust.ValuesExactly` | attestation/tpm-quote-verifier.ts:254-264 | the PCR values are accepted if and only if the entries are the selected indices under their decimal names and no others; value i is the entry of the i-th selected index |
| `TpmTrust.ConcatInBlocks` | attestation/tpm-quote-verifier.ts:342-344 | the hashed text has 32 bytes for each value, and block i is the i-th value |
| `TpmTrust.TrustedExactly` | attestation/tpm-quote-verifier.ts:294-376 | the verifier's condition holds if and only if the quote is genuine: the signed bytes are a quote of the policy's nonce, of one SHA-256 bank with the policy's selection and of the digest of the policy's values in ascending order of their PCRs, safe if required, and the signature verifies over those bytes under a key with a pinned fingerprint |
| `TpmVerify.VerifyTpm2Quote` | attestation/tpm-quote-verifier.ts:294-376 | verified if and only if the quote is genuine for some selection and values, with that digest, that key's fingerprint and that selection in the answer; every failure names something that is wrong |
| `TpmVerify.PolicyFixesQuote` | attestation/tpm-quote-verifier.ts:294-376 | a trusted quote's signed bytes are the serialization of the policy's nonce, its selection and the digest of a text of 32 bytes per selected PCR whose block i is the policy's value for the i-th selected PCR; only signer name, clock and bitmap width are free |
| `TpmVerify.DigestFixesValues` | attestation/tpm-quote-verifier.ts:336-346 | one digest for one selection means the same PCR values, or two different texts made of the values, block by block, hash alike |
| `CollusionRings.BuildSubmissionGraph` | lib/collusion-monitor.ts:36-49 | both maps count, for every pair of different non-empty ids, the receipts between them |
| `CollusionRings.CountIsCardinality` | lib/collusion-monitor.ts:39-47 | which is the number of receipts from the one to the other, each counted once |
| `CollusionRings.SuccIsVouched` | lib/collusion-monitor.ts:39-47 | a node's successors are exactly the other ids it submitted a receipt for |
| `CollusionRings.CanonicalUnique` | lib/collusion-monitor.ts:74-78 | only one rotation of a simple cycle has its smallest member first |
| `CollusionRings.RingSearch.Record` | lib/collusion-monitor.ts:74-87 | reports the canonical rotation once per key |
| `CollusionRings.RingSearch.Dfs` | lib/collusion-monitor.ts:89-98 | every bounded simple cycle that starts with the current path is covered afterwards |
| `CollusionRings.DetectRings` | lib/collusion-monitor.ts:69-102 | reports only canonical simple cycles within the limits, no key twice, and covers every such cycle's key |
| `CollusionRings.CompleteIffKeysTellApart` | lib/collusion-monitor.ts:74-102 | no cycle is missed if and only if the join keys tell the canonical cycles apart |
| `CollusionRings.RingsExact` | lib/collusion-monitor.ts:69-102 | for ids without the join character: exactly the bounded simple cycles, each once, smallest member first |
| `CollusionRings.SharedKeyHidesARing` | lib/collusion-monitor.ts:78-80 | a graph with two rings and one key |
| `CollusionRings.DetectBilateralPairs` | lib/collusion-monitor.ts:52-66 | reports only mutual pairs, no joined key twice, and for every mutual pair one with its key |
| `CollusionRings.PairsCompleteIffKeysTellApart` | lib/collusion-monitor.ts:55-63 | no mutual pair is missed if and only if the joined keys tell the mutual pairs apart |
| `CollusionRings.SeparatorFreePairsTellApart` | lib/collusion-monitor.ts:58-60 | which they do for ids without the join character |
| `CollusionRings.SharedKeyHidesAPair` | lib/collusion-monitor.ts:58-60 | a graph with two mutual pairs and one key, of which every report misses one |
| `CollusionRings.RingsOfTwoAreBilateralPairs` | lib/collusion-monitor.ts:52-102 | with length 2 inside the limits, the rings of length 2 are exactly the bilateral pairs |
| `CollusionTiming.MaxRun` | lib/collusion-monitor.ts:149-155 | the two-pointer loop finds the longest run of the sorted times that fits the window |
| `CollusionTiming.RunMaxIsWindowMax` | lib/collusion-monitor.ts:149-155 | the longest run is the largest number of times in any closed interval of that length |
| `CollusionTiming.MaxInWindow` | lib/collusion-monitor.ts:148-155 | the same for an unsorted list |
| `CollusionTiming.DetectTimingAnomalies` | lib/collusion-monitor.ts:136-166 | reports a submitter, once and with its maximum, if and only if it bursts |
| `CollusionTiming.BurstsExactly` | lib/collusion-monitor.ts:136-166 | that is, if and only if it has a timed receipt and in some closed interval of the window's length at least `burstCount` of its receipts |
| `ApprovalGate.BindClaim` | examples/executor_approval_gate.py:777-829 | null exactly when every provided field is carried by the signed claim; otherwise a field that is not |
| `ApprovalGate.ActionTypesAreClasses` | examples/executor_approval_gate.py:753-762 | action name equivalence is reflexive on names, symmetric and transitive |
| `ApprovalEvidence.BindsExactly` | examples/executor_approval_gate.py:777-829 | binding a claim is finding in the packet, under the names given, what the request asks for: the receipt id, an equivalent action, the same decimal amount and no boolean, the same currency up to case, the first present destination, the approver |
| `ApprovalEvidence.ShownExactly` | examples/executor_approval_gate.py:832-1031 | the ordered gates show exactly this of the packet: a document signed under the key it comes with, that key or its fingerprint in the pinned set, the anchor if required, everything the request asks for, and a date within the allowed age |
| `ApprovalGate.GatesPassExactly` | examples/executor_approval_gate.py:832-1031 | they pass exactly the evidence that shows it, in whatever order it is checked |
| `ApprovalEvidence.UntrustedIsStopped` | examples/executor_approval_gate.py:927-970 | `untrusted_signer` is the answer if and only if the document verifies under a key that is, with its fingerprint, outside the pinned set |
| `ApprovalEvidence.RefusedUnread` | examples/executor_approval_gate.py:866-908 | which packets are refused as unsigned, for want of a verifier and because the verifier raised |
| `ApprovalEvidence.RefusedByVerifier` | examples/executor_approval_gate.py:910-946 | and which for their signature and for their anchor |
| `ApprovalEvidence.RefusedForContent` | examples/executor_approval_gate.py:972-1031 | which evidence of a trusted signer is refused for its claim and for each of the four date reasons |
| `ApprovalCalls.InMemoryReplayStore.Seen` | examples/executor_approval_gate.py:221-226 | test-and-set |
| `ApprovalCalls.VerifyEvidenceOffline` | examples/executor_approval_gate.py:832-1055 | verified if and only if the packet proves a trusted signer, what the request asks for and its date, and the signed receipt id, as text, is not recorded; the store gains exactly that text when it verifies; a proven packet is otherwise a replay |
| `ApprovalCalls.WaitForApproval` | examples/executor_approval_gate.py:575-621 | verified if and only if, of the answers with status 200 and a final word, the first says `approved_pending_consume` and the evidence verifies; consumed, rejected, denied, expired and no final answer each give their own status and leave the store alone |
| `ApprovalRuns.SingleUse` | examples/executor_approval_gate.py:1033-1055 | over every interleaving each signed id verifies at most once and the store is exactly the ids that did |
| `ApprovalRuns.ExecutedOnProof` | examples/executor_approval_gate.py:832-1055 | over every interleaving, whatever was verified or executed was judged in that run on evidence that proves its own request under its own policy |
| `ApprovalRuns.FreshProofExecutes` | examples/executor_approval_gate.py:1033-1055 | in any state, such evidence carries a new call to execution unless its receipt id was redeemed |
| `ApprovalRuns.ExecutesOnce` | examples/executor_approval_gate.py:1614-1656 | resumes that hand the request on execute at most once per receipt id |
| `ApprovalRuns.TwiceIffUnkeyed` | examples/executor_approval_gate.py:1033-1055 | proven evidence can be executed on twice if and only if its signed receipt id is missing or null |
| `JsonText.EscapeExactly` | conformance/verify_hashes.py:38-39 | how each UTF-16 unit is written: printable ASCII as itself, but for the quote and the backslash; five control characters by a letter; all others by four lower-case hexadecimal digits |
| `JsonText.DumpsExact` | conformance/verify_hashes.py:38-39 | two strings are written alike exactly when their UTF-16 forms agree |
| `JsonText.SplitPairSharesSpelling` | conformance/verify_hashes.py:38-39 | two different strings, a split and a joined surrogate pair, with one spelling |
| `CanonicalJson.ParseCanonical` | conformance/verify_hashes.py:19-46 | a parser recovers from the canonical text the value with sorted keys and joined pairs |
| `CanonicalJson.CanonicalExact` | conformance/verify_hashes.py:19-46 | equal texts if and only if equal normal forms |
| `JsonEquality.SameIffNorm` | conformance/verify_hashes.py:42-45 | equal normal forms if and only if the values are the same up to key order |
| `JsonEquality.CanonicalIffSame` | conformance/verify_hashes.py:19-46 | canonical JSON is injective on well-formed values up to key order, and blind to key order |
| `ReceiptChain.GetIsTheEntry` | conformance/verify_hashes.py:54-70 | a read field is the receipt's own entry, and null exactly where it has none or holds null |
| `ReceiptChain.PayloadCarries` | conformance/verify_hashes.py:54-72 | the payload has seventeen members: each hashed field under its own name with the receipt's own value, the previous hash, and version 1 |
| `ReceiptChain.PayloadDetermines` | conformance/verify_hashes.py:49-74 | equal payload texts mean equal previous hashes and, for each of the fifteen hashed names, entries of both receipts with the same value, or one lacks it and the other lacks it or holds null |
| `ReceiptChain.PayloadFollows` | conformance/verify_hashes.py:49-74 | and receipts that agree in those entries have one payload text: nothing else enters it |
| `ReceiptChain.HeadFixesHistory` | conformance/verify_hashes.py:49-75 | equal heads mean equal length and, back to genesis, receipts that agree in each of those fifteen entries, or two hashed texts collide |
| `ReceiptChain.HistoryFixesHead` | conformance/verify_hashes.py:49-75 | the converse |
| `BuildAttestation.VerifyMerkleAnchor` | packages/verify/src/index.ts:515-530 | accepts exactly non-empty hashes, at most 20 positioned steps and a fold that meets the root |
| `BuildAttestation.VerifyBuildAttestation` | attestation/build-attestation.ts:224-339 | valid if and only if every link holds; complete if and only if the record stands in its log and the rebuild came from its commit; and each link's status, exactly |
| `BuildAttestation.AttestedExactly` | attestation/build-attestation.ts:224-339 | what the verifier calls valid, link by link: every field of its form, the leaf hash that of this source and binary, at most twenty labelled steps that lead from it to the root, an agreeing checkpoint if there is one, the claimed build from the rebuild, no malformed or rejected quote |
| `BuildAttestation.RebuildStatusExactly` | attestation/build-attestation.ts:276-318 | matched, mismatched, built from another commit, or an error, each exactly when the rebuild reports so |
| `BuildAttestation.EntryOfLog` | attestation/merkle-log.ts:56-80 | an entry is built exactly for the positions of the log, with the whole log's root and size and the position's own leaf, and is accepted unless it has more than twenty steps |
| `BuildAttestation.AssembledIsValid` | attestation/merkle-log.ts:91-105 | an assembled record keeps its source and binary, states the grown log's root and size, and verifies if and only if the number of earlier entries has at most 20 one-bits |
| `BuildAttestation.FirstLogTooLong` | attestation/merkle-log.ts:91-105 | below 2^21 earlier entries only 2^21 - 1 fails |
| `BuildAttestation.LeafFixesBuild` | attestation/build-attestation.ts:65-88 | two valid records with one leaf hash have the same commit, path, filename and artifact hash, or the two leaf preimages collide |
| `BuildAttestation.AttestedIsInLog` | attestation/build-attestation.ts:245-267 | a valid record under the root of a log is in that log with the log's own proof, or a collision is exhibited |

## Left out

- Real cryptography: SHA-256, Ed25519, RSA and ECDSA verification and key parsing are parameters.
- `anchorToBase`, the database client and the lease store: only their success, failure and crash outcomes appear, as steps.
- The anchor fetch order: which unclaimed receipts a fetch returns is left open, so the order by creation time is not modelled.
- `AnchorWorker.System.RunAnchorBatch`: one worker's pass without interleaving; interleaving is what the state machine is for.
- File system details of the file store: a directory is a map with atomic create and replace; a record that cannot be canonicalized leaves a file that fails its check.
- Inside a mailbox payload nothing is counted: its node, string byte and depth counts are given with it.
- Values of the wrong JavaScript type or with extra keys: they are `None`, which fails the shape check.
- Delivery receipts as signed objects, subscriptions, action proposals and admission in the mailbox: they would add only field copying and further guard chains.
- `MailboxCalls.Deliver`: written against the memory store and without interleaving; `MailboxReceipts` has the interleaved call, and `MailboxAgreement` says for which records the file store answers alike and what it does with the others.
- `MailboxCalls.Acknowledge`: without interleaving; `MailboxAnswers` has the interleaved call.
- `hexOf`: hashes are taken as bare lower-case hexadecimal, without the `sha256:` prefix or upper case it strips.
- Sizes above 2^53 in the consistency verifier, where the doubles of the original lose integers.
- Non-integer JSON numbers: `str` of a float is not modelled.
- `detectConcentration` and the severity ranking of `scanCollusion`: float shares and a sort by label.
- `CollusionTiming.DetectTimingAnomalies`: times are integers or absent; date parsing is not modelled.
- Hex and base64 decoding in the TPM verifier: decoded bytes, or `None` where decoding throws.
- `ApprovalCalls.VerifyEvidenceOffline`: lists compare by identity and nested numbers structurally; Python's `==` is spelled out only for scalars.
- HTTP paths, the async client and environment handling of the approval gate.
- Restarts of the approval process: the in-memory store is one process's store, as its own warning says.
- The reproducible rebuild itself: what it reports is a parameter.
