# VRL: verified models of the proof and evidence core

This project models, in Dafny, the parts of the VRL repository that its claims rest on, and proves
what those parts promise.

- **Field and polynomials** (`NumberTheory`, `Polynomials`, `FieldUtils`, `QuadraticResidues`, `Ntt`): the prime-field
  arithmetic of `zk/field_utils.py` over an abstract prime. Fermat's theorem is derived, not
  assumed; from it follow the field inverse, long division with a unique quotient and remainder,
  the linear quotient of an opening, both round trips of the inverse transform, and the criterion
  that a polynomial is divisible by the vanishing polynomial exactly when it is zero on the domain.
- **Canonical JSON and hashes** (`Ordering`, `Text`, `CanonicalJson`, `JsonReader`, `VrlHashing`,
  `WireFormat`): a reader for the grammar of RFC 8259 that wants keys in code-point order gives
  every value back from its canonical text, so the serializer is uniquely decodable, and the SDK's
  hashes bind their inputs. The hashed objects are given member by member.
- **Audit chain** (`AuditChain`, `ChainInterleaving`, `ChainCheckpoint`): the verifiers report exactly the first break;
  checkpointed verification refines full verification; equal last hashes bind whole chains.
- **Evidence protocol** (`EvidenceProtocol`, `EvidenceRetries`, `EvidenceSerial`, `InMemoryRepository`): concurrent
  `calculate_and_persist` calls as interleaved steps of transactions over partition locks, an
  invariant of every reachable state, exactly when a call gives up its retries, and refinement of
  every interleaving to the serial reference, which the in-memory repository implements step by
  step.
- **Engine to circuit** (`Decimals`, `Engine`, `TariffSchedule`, `Circuit`, `PlonkBinding`): 28-digit
  decimal money arithmetic with its double roundings, the fees and rates in figures, the fixed-point
  witness that satisfies all eight gates, the gate table against the backend's rows, and the
  verifier that rebuilds the prover's instance and notices each tampered binding.
- **Coordinator** (`DagScheduler`, `DagOutcomes`, `TaskConstraints`, `ArtifactGraph`): the scheduler terminates, runs
  each task once and after its dependencies, gives every task one fate whatever order agents finish
  in, and stalls in exactly the characterized cases; the artifact graph keeps its edges and indexes.
- **Queue and limiter** (`ProofQueue`, `RateLimiter`): event histories of proof jobs, and a bound on
  every window of every run of the rate limiter whose calls get its lock in clock order.

## How the model reads the code

- SHA-256 is an uninterpreted function `sha`; digests are ASCII text (`AsciiDigest`) where they are
  compared. Where a hash is said to bind its inputs, the hypothesis is that `sha` does not collide
  on the texts in question (`Separates`).
- The field modulus is a parameter `p` with `IsPrime(p)`; the eight-point domain needs `p % 8 == 1`.
- Record hashing is passed to the chain verifiers as a function `Hasher`; the source has one,
  `AuditHasher(sha)`. The evidence protocol is stated for any partition function of input hashes and
  any starting hash; `Deployed` is the source's choice.
- Transactions are read-committed: a statement sees the committed state of its moment. Locks last
  to commit or rollback, audit ids come from a sequence that is never rolled back, and a fault may
  strike any step. `Fault` is the only other nondeterminism besides the interleaving.
- Money inputs are in cents, as request validation quantizes them before the engine sees them.
- Agents, artifact resolution and strategy memory of the coordinator are functions of the task
  (`Oracles`), so that runs which differ only in completion order can be compared.
- A mirror write of a proof-queue event may fail, which the code turns into further events;
  `mirrored` records it.

## What was found

- `poly_divmod` is a division exactly when the leading coefficient of the divisor is not zero
  modulo p, or the dividend has nothing to cancel (`FieldUtils.PolyDivmod`).
- The integrity hash concatenates three hashes without a separator, so it binds them exactly when
  their lengths agree (`VrlHashing.IntegrityHashBinds`, `VrlHashing.IntegrityHashNeedsLengths`).
- Digests are compared with a function that raises on text beyond ASCII, and nothing in the chain
  verifiers catches it. A scan raises exactly when the first break has a previous hash that is not
  ASCII, or the right previous hash and a current hash that is not (`AuditChain.SingleOutcome`,
  `AuditChain.NonAsciiRaises`); the whole log raises exactly when its lowest-numbered bad partition
  does (`AuditChain.VerifyAuditChain`). With checkpoints a stored hash can raise, too
  (`ChainCheckpoint.VerifySegment`, `ChainCheckpoint.CheckOneSegment`). The proof verifier catches
  the exception and names its backend-error check (`PlonkBinding.VerifyPlonkProof`).
- Records inside a segment whose checkpoint is consistent with itself are not read at all
  (`ChainCheckpoint.SkippedSegmentsUnread`). With checkpoints of the present boundary records the
  answer is that of full verification if and only if the first break is not inside a segment that
  is not read, or both raise (`ChainCheckpoint.AgreesExactly`); any one record under a built
  checkpoint can be replaced unseen (`ChainCheckpoint.TamperingUnseen`).
- A proof task can leave `completed`: when the mirror write of its completed event fails, the
  exception handler appends a failed event (`ProofQueue.CompletedCanBeLeft`). Once no worker holds
  the task, a completed event is last if and only if that write succeeded
  (`ProofQueue.CompletedIsFinal`).
- The scheduler can raise its stall error although every pending task is blocked by a known
  failure: memory blocks alone do not start another round, so a task whose name sorts before its
  memory-blocked dependency is not noticed (`DagOutcomes.NamesDecide`, and `DagOutcomes.StallsExactly`
  for the exact condition).
- An artifact that names itself as a parent is accepted and makes a loop
  (`ArtifactGraph.SelfParentMakesLoop`); no other call does, failing ones included
  (`ArtifactGraph.AcyclicUnlessSelfParent`, `ArtifactGraph.AcyclicWithoutSelfParent`).
- Where products outgrow 28 digits, charges are rounded twice. A charge is off by more than half a
  cent exactly when the first rounding lifts the product onto half a cent
  (`Decimals.ChargeWithinHalfCent`, `Engine.ComponentsOffExactly`), which happens
  (`Engine.DutyCanBeOff`); yet the landed cost stays within two cents of the formula, because the
  merchandise fee is then at its maximum (`Engine.LandedNearFormula`).

- The rate limiter reads the clock before it takes its lock. Its bound holds if calls get the lock
  in clock order (`RateLimiter.InOrderRunsHold`); otherwise an early reading can come after a late
  one has evicted hits, and a window can hold more than the limit (`RateLimiter.OutOfOrderExceeds`).

## Model

| member | source | states |
|---|---|---|
| NumberTheory.Fermat | zk/field_utils.py:25-26 | x^(p-1) is 1 modulo a prime p for every x that p does not divide: the ground of inversion by exponentiation |
| FieldUtils.FieldInvInverts | zk/field_utils.py:25-26 | the power p-2 is the inverse of every nonzero element, and 0 of 0 |
| FieldUtils.OmegaTestsForceOrderEight | zk/field_utils.py:13-19 | the two tests on omega force order exactly 8: all smaller powers differ from 1 |
| FieldUtils.OmegaCandidateExact | zk/field_utils.py:13-19 | with 8 dividing p-1 a candidate passes exactly when it is not 0 and its power (p-1)/2 is not 1 |
| QuadraticResidues.RootBound | zk/field_utils.py:53-63 | a polynomial whose leading coefficient is not 0 has at most as many roots as its degree, by division by X - z |
| QuadraticResidues.EulerCriterion | zk/field_utils.py:13-19 | c is a nonzero square exactly when its power (p-1)/2 is 1 |
| QuadraticResidues.OmegaFromNonResidue | zk/field_utils.py:13-19 | with 8 dividing p-1 a candidate gives a primitive eighth root exactly when it is a quadratic non-residue: no number has it as its square |
| FieldUtils.FindOmega | zk/field_utils.py:13-22 | the first passing candidate below 512, a primitive eighth root, or none exactly when none passes |
| FieldUtils.PolyEval | zk/field_utils.py:29-36 | the loop computes the value of the polynomial modulo p |
| FieldUtils.InverseNtt | zk/field_utils.py:39-50 | the double loop computes the scaled values at the powers of the inverse root |
| Ntt.InttOfValues | zk/field_utils.py:39-50 | the transform of the values of any polynomial on the domain gives its coefficients back |
| Ntt.ValuesOfIntt | zk/field_utils.py:29-50 | evaluating the transform of any values on the domain gives the values back |
| Ntt.TransformTwice | zk/field_utils.py:39-50 | transforming with a root and then with its inverse multiplies by n, as nontrivial power sums vanish |
| Ntt.VanishingOnDomain | zk/field_utils.py:39-50 | a polynomial with at most n coefficients that is zero on the whole domain is zero |
| Ntt.DivisibleIffVanishing | zk/field_utils.py:104-128 | division by X^n - 1 leaves no remainder if and only if the dividend is zero at every power of omega |
| Ntt.EightPointDomain | zk/field_utils.py:10-50 | both round trips for every reduced list on the source's own domain, at its reduced points |
| Ntt.DivideByVanishing | zk/field_utils.py:104-128 | dividing a reduced list by the eight-point vanishing polynomial computes an all-zero remainder if and only if the list is zero at all eight reduced powers of omega |
| FieldUtils.PolyAdd | zk/field_utils.py:88-96 | the padded sum of two polynomials modulo p, computed in place |
| FieldUtils.PolyMul | zk/field_utils.py:74-85 | the convolution modulo p, [0] for an empty factor, skipping zero coefficients |
| FieldUtils.ProductValue | zk/field_utils.py:74-85 | the value of a product is the product of the values at every point |
| FieldUtils.SumValue | zk/field_utils.py:88-96 | the value of a sum is the sum of the values at every point |
| FieldUtils.PolyDivmod | zk/field_utils.py:104-120 | terminates; lengths of quotient and remainder; a division exactly when the leading coefficient is invertible or nothing is to be cancelled |
| FieldUtils.DivisionRecombines | zk/field_utils.py:74-120 | quotient times divisor plus remainder is the dividend, as lists |
| Polynomials.DivisionUnique | zk/field_utils.py:104-120 | quotient and remainder of a division by a polynomial with nonzero leading coefficient are unique |
| FieldUtils.PolyDivmodLinear | zk/field_utils.py:53-63 | synthetic division: p = (X - z)q + r with r the value at z, for every nonempty p |
| FieldUtils.KzgOpenCoeffs | zk/field_utils.py:66-71 | the opening quotient satisfies (X - z)q = p - v exactly when v is the value at z |
| FieldUtils.VanishingPoly | zk/field_utils.py:123-128 | X^n - 1 as a list of n + 1 coefficients |
| Ordering.StringLessIsCodePointLess | sdk/python/vrl/hashing.py:32 | for all strings: one is less exactly when it is a proper prefix of the other or has the lower character where they first differ |
| Ordering.IncreasingByCodePoints | coordinator/system.py:266 | lists sorted by name increase by code points, every element before every later one |
| CanonicalJson.CanonicalText | sdk/python/vrl/hashing.py:12-54 | the recursive serializer computes the canonical text, keys increasing by code points |
| CanonicalJson.CanonicalPairs | sdk/python/vrl/hashing.py:30-39 | the loop over sorted items appends one pair text per key |
| JsonReader.EscapedReads | sdk/python/vrl/hashing.py:43-44 | a decoder of the escapes of section 7 of RFC 8259, surrogate pairs included, gives every string back from its escaped text up to the closing quote |
| JsonReader.EscapeLength | sdk/python/vrl/hashing.py:43-44 | which characters stand for themselves, which get a backslash and a letter, and which a surrogate pair, by their codes |
| JsonReader.EscapedIsPrintable | sdk/python/vrl/hashing.py:43-44 | escaped text is printable ASCII |
| JsonReader.ValueReads | sdk/python/vrl/hashing.py:12-54 | a reader of JSON that wants keys in code-point order gives every value back from its canonical text, whatever follows that does not continue a number |
| JsonReader.Decodes | sdk/python/vrl/hashing.py:12-54 | two canonical texts with any continuation agree only if the values and the continuations do |
| JsonReader.UniquelyDecodable | sdk/python/vrl/hashing.py:12-54 | equal canonical text implies equal value, whatever the insertion order of keys |
| VrlHashing.JsonHashBinds | sdk/python/vrl/hashing.py:57-67 | equal hashes of objects mean equal objects |
| VrlHashing.AiIdBinds | sdk/python/vrl/hashing.py:70-112 | one AI id means one identity, in all six fields |
| WireFormat.AiIdText | sdk/python/vrl/hashing.py:70-112 | the object hashed to an AI id: its seven members and their order |
| WireFormat.AiIdFields | sdk/python/vrl/hashing.py:70-112 | what each member of that object holds, the version of the format included |
| VrlHashing.ProofHashBinds | sdk/python/vrl/hashing.py:139-170 | one proof hash means one proof, public inputs in order included |
| WireFormat.ProofText | sdk/python/vrl/hashing.py:139-170 | the object hashed to a proof hash: its six members and their order |
| WireFormat.ProofFields | sdk/python/vrl/hashing.py:139-170 | what each member of that object holds, the hash of the list of public inputs included |
| VrlHashing.IntegrityHashBinds | sdk/python/vrl/hashing.py:115-136 | the concatenation binds its three parts if and only if their lengths agree |
| VrlHashing.IntegrityHashNeedsLengths | sdk/python/vrl/hashing.py:115-136 | different parts with one integrity hash |
| AuditChain.ChainIdIsLowSixBits | core/audit_chain.py:21-23 | the partition is the low six bits of the input hash, said by its last two digits |
| WireFormat.AuditPayloadText | core/audit_chain.py:38-69 | the hashed object of an audit event: its four members and their order |
| WireFormat.AuditPayloadFields | core/audit_chain.py:38-51 | what each member of the hashed object holds |
| AuditChain.ZeroHashIs | core/audit_chain.py:12 | the starting hash is 64 zeros |
| AuditChain.BuildAuditEvent | core/audit_chain.py:72-98 | a built event continues the chain from the given previous hash |
| AuditChain.AuditHasherIgnoresHashFields | core/audit_chain.py:38-69 | a record's hash does not depend on its id, partition or stored hashes |
| AuditChain.FirstBreakExact | core/audit_chain.py:101-136 | everything before the first break links, the break does not, and there is none exactly when the chain is valid |
| AuditChain.VerifySingleChain | core/audit_chain.py:101-136 | valid exactly for linked chains; otherwise the reason, position and id of the first break and the hash before it, or an exception exactly when comparing the first break's hashes raises |
| AuditChain.NonAsciiRaises | utils/hashing.py:27-28 | a first record with a previous hash beyond ASCII makes the scan raise |
| AuditChain.ReplacedRecord | core/audit_chain.py:101-136 | any record of a valid chain replaced by one that does not link there: the reason in words, the position, the hash before it and the id, or the exception for text beyond ASCII |
| AuditChain.RelinkedRecord | core/audit_chain.py:101-136 | a replaced record that links is reported at its successor as a previous hash mismatch, unless its current hash is the old one or it is the last |
| AuditChain.AuditHasherIsAscii | core/audit_chain.py:38-69 | the source's record hashes are ASCII text, which the verifiers ask of their hasher |
| AuditChain.GroupByChain | core/audit_chain.py:158-164 | the dictionary holds each partition's records in input order |
| AuditChain.VerifyInOrder | core/audit_chain.py:166-171 | the loop over sorted partitions ends with the outcome, result or exception, of the lowest-numbered one that is not valid, or has counted every record |
| AuditChain.VerifyAuditChain | core/audit_chain.py:139-179 | valid exactly when every partition is; otherwise the result or the exception of the lowest-numbered bad partition; row and partition counts of a valid log |
| ChainInterleaving.VerdictIgnoresInterleaving | core/audit_chain.py:139-179 | exchanging neighbouring records of different partitions, any number of times, keeps the verdict and a failure's result or exception |
| ChainInterleaving.SameSelectionsInterleave | core/audit_chain.py:139-179 | inputs with the same per-partition sequences are reached from each other by such exchanges |
| AuditChain.AuditHasherBinds | core/audit_chain.py:38-69 | equal record hashes over 64-character previous hashes come from equal previous hashes and payloads |
| AuditChain.ChainBinds | core/audit_chain.py:101-136 | two accepted chains of equal length and last hash agree in every hashed field at every position |
| AuditChain.LengthBinds | core/audit_chain.py:101-136 | chains of different lengths share a last hash only if a record hashes to the starting hash |
| ChainCheckpoint.BuildCheckpointsForChain | core/chain_checkpoint.py:22-33 | one checkpoint per complete segment, of its last record |
| ChainCheckpoint.VerifySegment | core/chain_checkpoint.py:44-68 | the first broken link of a segment from the given hash, or else its boundary hash; an exception exactly when one of these comparisons meets text beyond ASCII |
| ChainCheckpoint.SegmentReportsBreak | core/chain_checkpoint.py:44-58 | the first record of a segment that does not link: the reason in words, its position and id, or the exception for text beyond ASCII |
| ChainCheckpoint.SegmentReportsBoundary | core/chain_checkpoint.py:59-68 | a segment that links is valid, unless its stored checkpoint has another hash than its last record, which is reported, or one beyond ASCII, which raises |
| ChainCheckpoint.SegmentAfterUnreadable | core/chain_checkpoint.py:44-68 | after a hash beyond ASCII every nonempty segment raises |
| ChainCheckpoint.CheckOneSegment | core/chain_checkpoint.py:80-96 | a segment is skipped exactly over a checkpoint that is consistent with itself, and raises under one whose hash is not ASCII |
| ChainCheckpoint.CheckSegments | core/chain_checkpoint.py:76-107 | the loop over segments and the tail decide what the recursive verdict says |
| ChainCheckpoint.VerifyChainWithCheckpoints | core/chain_checkpoint.py:70-107 | the verdict for a partition and the checkpoints, later ones replacing earlier ones |
| ChainCheckpoint.ValidReport | core/chain_checkpoint.py:70-107 | the report on a valid chain without checkpoints, in words and figures |
| ChainCheckpoint.LastCheckpointCounts | core/chain_checkpoint.py:74 | of several checkpoints for one segment the last one given counts |
| ChainCheckpoint.OnlyGivenSegments | core/chain_checkpoint.py:74 | a segment has a checkpoint exactly when one was given for it |
| ChainCheckpoint.NoCheckpointsRefines | core/chain_checkpoint.py:70-107 | without checkpoints, for every interval, the answer of full verification |
| ChainCheckpoint.CheckedRefinesFull | core/chain_checkpoint.py:70-107 | with honest checkpoints the verdict, count, broken record and last hash of a full scan from any point |
| ChainCheckpoint.CheckpointsRefineFull | core/chain_checkpoint.py:22-107 | any subset of the built checkpoints gives the full answer while the covered records are the verified ones |
| ChainCheckpoint.AgreesExactly | core/chain_checkpoint.py:70-107 | with checkpoints of the boundary records, on any chain: the answer of full verification if and only if the first break is inside no skipped or raising segment, or both raise |
| ChainCheckpoint.TamperingUnseen | core/chain_checkpoint.py:80-88 | any record under a built checkpoint of a valid chain may be replaced by one that does not link, and the answer stays that of the valid chain |
| ChainCheckpoint.CheckpointTextDecodes | core/chain_checkpoint.py:18-20 | the text under a checkpoint hash determines partition, segment, record id and record hash |
| ChainCheckpoint.CheckpointTextReads | core/chain_checkpoint.py:17-20 | the hashed text of a checkpoint, with and without a record id |
| ChainCheckpoint.CheckpointBinds | core/chain_checkpoint.py:18-20 | a checkpoint hash accepted for one segment is accepted for no other partition, segment or last record, unless two texts collide |
| ChainCheckpoint.CheckpointHasherIsAscii | core/chain_checkpoint.py:18-20 | the source's checkpoint hashes are ASCII text |
| ChainCheckpoint.SkippedSegmentsUnread | core/chain_checkpoint.py:80-88 | changes confined to skipped segments leave the result as it was |
| EvidenceProtocol.Newest | app/db/repository.py:81-87 | the newest record by id, as ORDER BY id DESC LIMIT 1 selects it |
| EvidenceProtocol.LatestIsTail | app/db/repository.py:81-87 | with ids increasing in commit order the newest record is the true tail |
| EvidenceProtocol.PendingLinks | app/services/evidence_service.py:160-193 | the event about to be committed continues its partition's committed chain, so the hash sanity check passes |
| EvidenceProtocol.StepKeepsInv | app/services/evidence_service.py:126-250 | every step keeps chains, ids, locks, unique rows and what lock holders know |
| EvidenceProtocol.StepKeepsOther | app/db/repository.py:309-315 | a step leaves what another lock holder knows true, as holders are on different partitions |
| EvidenceProtocol.RunKeepsInv | app/services/evidence_service.py:126-250 | in every state of every interleaving: linked chains with ids increasing in commit order, at most one row per input hash, exclusive locks |
| EvidenceProtocol.ReadersSeeCommitOrder | app/db/repository.py:135-139 | a reader's per-partition sequences are the ones in commit order |
| EvidenceProtocol.CommittedLogVerifies | app/services/evidence_service.py:126-250 | in every reachable state the committed audit log verifies in every partition |
| EvidenceProtocol.DeployedLogVerifies | core/audit_chain.py:139-179 | the same for the source's hash, partitions and starting hash |
| EvidenceProtocol.InsertNeverConflicts | app/db/repository.py:339-367 | the batch insert never meets the unique constraint and never waits for another insert |
| EvidenceProtocol.SomeoneCanMove | app/services/evidence_service.py:126-250 | no deadlock: while a call is unfinished, some call can move without a fault |
| EvidenceProtocol.RunsAreBounded | app/services/evidence_service.py:126-250 | every interleaving ends within 47 moves per call, an upper bound that allows five attempts and the failure log |
| EvidenceRetries.GivesUpExactly | app/services/evidence_service.py:126-248 | in every run, counting faults of a call's attempts: it gives up exactly after one non-retryable or five retryable ones, and before that an unfinished call with k retryable ones is in attempt k + 1 |
| EvidenceRetries.LogsLastFault | app/services/evidence_service.py:228-247 | a failure log carries the reason and time of the fault that ended the attempts |
| EvidenceRetries.EventsTellOutcomes | app/services/evidence_service.py:141-177 | in every state of every run each committed event is in its call's partition and has the type and payload of how the call ended: persisted, rejected as a duplicate, or failed |
| EvidenceSerial.RunRefinesSerial | app/services/evidence_service.py:126-250 | every interleaving leaves the state of the serial run of its transactions in commit order, up to ids |
| EvidenceSerial.OneEventPerCall | app/services/evidence_service.py:216-248 | exactly one committed event per finished call, none if the failure log failed |
| EvidenceSerial.OutcomesAreSerial | app/services/evidence_service.py:216-224 | every call ends as it would have in the serial run |
| InMemoryRepository.Transaction.constructor | tests/fakes.py:34-37 | entering takes the lock and clones the state |
| InMemoryRepository.Transaction.Exit | tests/fakes.py:39-44 | leaving swaps the working copy in or drops it, and releases the lock |
| InMemoryRepository.Transaction.FetchLatestAuditHash | tests/fakes.py:65-70 | the hash of the last record of the partition in the log, or the starting hash |
| InMemoryRepository.Transaction.InsertRecordsBatch | tests/fakes.py:75-91 | request, result and proof together or nothing; fails exactly on a stored hash or an injected failure |
| InMemoryRepository.Transaction.InsertAuditEvent | tests/fakes.py:93-97 | appends the event with the next id, or nothing under the injected failure |
| InMemoryRepository.LogFailureEvent | app/services/evidence_service.py:425-449 | a second transaction appends the failure event, or leaves the state if it fails |
| InMemoryRepository.Attempt | app/services/evidence_service.py:130-214 | one attempt: its error, or the new state of a duplicate or of a persisted call |
| InMemoryRepository.CalculateAndPersist | app/services/evidence_service.py:126-250 | which transaction a call commits for every injected failure and number of rejected commits, its answer and the new state |
| InMemoryRepository.CommittedInFigures | app/services/evidence_service.py:126-248 | which transaction a call commits: its own after up to four rejected commits, a failure log with its text at five, nothing beyond; the log of a failed insert, unless its commit is rejected, and nothing when the audit insert fails |
| InMemoryRepository.HasHashIsStored | tests/fakes.py:72-73 | what the duplicate check looks up is stored exactly when the serial reference has a row with the hash |
| InMemoryRepository.HistoryRepresents | tests/fakes.py:28-97 | any history of committed transactions leaves the state of the serial run: same log with ids, one request, result and proof per row |
| InMemoryRepository.RunMatchesRepository | tests/fakes.py:28-97 | in every state of every interleaving this repository, given the same transactions, has the same log up to ids and the same input hashes |
| InMemoryRepository.StepRepresents | tests/fakes.py:28-97 | the new state is the serial step: same log with ids, one request, result and proof per row |
| Decimals.ContextRounds | utils/decimal.py:6 | a number is rounded to 28 digits: to the nearest multiple of the power of ten that leaves 28, ties to the even one |
| Decimals.HalfUpError | utils/decimal.py:29-30 | rounding to cents is off by at most half a cent, and up where it is half a cent |
| Decimals.FitIntMonotone | utils/decimal.py:6 | rounding to 28 digits is monotone, across changes of exponent |
| Decimals.FitIntRange | utils/decimal.py:6 | a result of more than 28 digits keeps its magnitude when rounded |
| Decimals.MoneyOfProduct | utils/decimal.py:29-30 | money of a product is half-even rounding to 28 digits followed by half-up rounding to cents, or an invalid operation |
| Decimals.MoneyOfMultiple | utils/decimal.py:29-30 | cents times an integer is exact, or an invalid operation exactly from 28 digits on |
| Decimals.AddCents | core/engine.py:40-48 | a sum of cents is exact until it outgrows the context, and never shrinks back |
| Decimals.ChargeBelow | core/engine.py:36-39 | a rate below one charges at most the amount |
| Decimals.ChargeMonotone | core/engine.py:36-39 | a charge is monotone in the amount through both roundings |
| Decimals.ChargeWithinHalfCent | utils/decimal.py:6-30 | a charge is within half a cent of the exact amount if and only if rounding to 28 digits does not lift the product onto half a cent; within 28 digits it never does |
| Engine.ComponentsOffExactly | core/engine.py:36-39 | duty, additional duty and harbour fee of every successful request are off by more than half a cent exactly when their product is rounded doubly |
| Engine.DutyCanBeOff | core/engine.py:36 | a request whose duty is off by more than half a cent |
| Engine.LookupFinds | core/tariffs.py:57-62 | the rule with exactly this code, or the lookup error exactly when there is none |
| Engine.CalculateWithExact | core/engine.py:34-48 | exactly when a request succeeds, and the closed form of every component; otherwise an invalid operation |
| Engine.LandedIsExactSum | core/engine.py:35-48 | landed cost is the exact sum of its rounded components, and the merchandise fee is between 3271 and 63462 cents |
| Engine.LandedMonotone | core/engine.py:34-48 | landed cost is monotone in customs value, quantity, freight and insurance, and success is closed downwards |
| Engine.LandedNearFormula | core/engine.py:34-48 | landed cost is within two cents of the unrounded formula for every request that succeeds; the figures in that formula are fixed by `TariffSchedule.LandedNearSchedule` |
| TariffSchedule.LookupFindsRates | core/tariffs.py:22-29 | for every code the rates in figures, the origins of the additional one and the rule reference, or none exactly for a code not listed |
| TariffSchedule.MerchandiseFee | core/engine.py:13-38 | the merchandise fee is 0.3464 percent rounded half-up, at least 32.71 and at most 634.62, and which bound is met when |
| TariffSchedule.FeesInFigures | core/engine.py:36-39 | duty, additional duty and harbour fee are the listed rates and 0.125 percent, rounded half-up, while products fit the context |
| TariffSchedule.LandedNearSchedule | core/engine.py:34-48 | landed cost is within two cents of the formula in figures for every request that succeeds |
| TariffSchedule.SmallestFee | core/engine.py:14-48 | 100.00 of computers by air cost 132.71 |
| Circuit.FixedPointExact | zk/witness/generator.py:19-21 | the fixed-point encoding of every amount is exact, 10^4 units per cent |
| Circuit.ColumnsFollowGates | zk/witness/generator.py:117-150 | every row of the columns holds the wires of its gate in the table |
| Circuit.SelectorIsRow | zk/compiler/plonk_adapter.py:64-73 | the general selector equation of gate i is the row's own equation modulo p |
| Circuit.VerifyGateConstraints | zk/witness/generator.py:54-61 | the eight booleans are the selector equations of the table |
| Circuit.GatesHoldExactly | zk/witness/generator.py:92-113 | all eight gates hold over the integers for every balanced witness |
| Circuit.WireIsReduced | zk/witness/generator.py:82-95 | the wires the source reduces step by step are the integer wires modulo p |
| Circuit.GeneratedHoldsExactly | zk/witness/generator.py:78-150 | for any inputs and any claimed landed cost, the generated columns satisfy all eight gates if and only if the claim is, modulo p, the extended value with freight, insurance and all fees |
| Circuit.HonestWitness | zk/witness/generator.py:78-150 | the assignment of every successful request satisfies all gates modulo any p, and over the integers when p exceeds the 28-digit bound |
| Circuit.Synthesize | zk/rust_backend/src/main.rs:176-217 | the region filled row by row: multiplication rows 0-4, addition rows 5-7, bindings below, the landed cost cell of row 7 |
| Circuit.ProveRegion | zk/rust_backend/src/main.rs:137-217 | the backend's constraints hold exactly when the table's eight gates do and the instance starts with the landed cost wire |
| Circuit.BuildsShaped | zk/rust_backend/src/main.rs:308-326 | a circuit is built exactly from eight rows and thirteen instance values, and has twelve bindings |
| Circuit.AcceptedClaim | zk/rust_backend/src/main.rs:137-217 | with generated columns the backend's constraints hold exactly when the claimed landed cost and the first instance value both are, modulo p, what the inputs add up to |
| Circuit.ProveHonest | zk/rust_backend/src/main.rs:137-217 | for every successful request the backend accepts the region built from the generated assignment and an instance that starts with the landed cost |
| PlonkBinding.ParsePublicInputs | zk/verifiers/plonk_verifier.py:28-37 | splits each entry at its first '=', later keys winning, or the first bad entry |
| PlonkBinding.PublicInputsRoundTrip | zk/provers/plonk_prover.py:14-15 | parsing the serialized inputs gives them back if and only if no key is empty or contains '=' |
| PlonkBinding.LimbsInjective | zk/witness/generator.py:24-27 | the four limbs determine the 64-digit hash |
| PlonkBinding.LimbsFit | zk/witness/generator.py:24-27 | every limb is below 2^64 |
| PlonkBinding.LimbsSpellHash | zk/witness/generator.py:24-27 | the four limbs, highest first, spell the 256-bit value of the hash |
| PlonkBinding.InstanceLayout | zk/compiler/plonk_adapter.py:20-34 | value 0 of the instance is the landed cost; values 1 to 4, 5 to 8 and 9 to 12 spell the trace, circuit and inputs hashes |
| PlonkBinding.InstanceDeterminesStatement | zk/witness/generator.py:35-41 | the 13 instance values determine the landed cost and all three hashes |
| PlonkBinding.CheckBindings | zk/verifiers/plonk_verifier.py:87-150 | the binding checks in order, up to and including the first that fails, or raises because a digest is compared with text beyond ASCII; what each compares is fixed by the tampering rows below |
| PlonkBinding.VerifyPlonkProof | zk/verifiers/plonk_verifier.py:53-204 | valid exactly when every binding holds and the backend accepts the rebuilt instance, and then all checks are listed; otherwise the one check that failed, the backend error for every exception, and exactly those passed before it |
| PlonkBinding.TamperedCircuitHash | zk/verifiers/plonk_verifier.py:87-96 | another circuit hash in the metadata of a proof that passed: the verifier fails at that check and lists exactly those before it |
| PlonkBinding.TamperedTraceHash | zk/verifiers/plonk_verifier.py:98-107 | the same for another trace hash in the metadata |
| PlonkBinding.TamperedInputsHash | zk/verifiers/plonk_verifier.py:109-119 | the same for another ASCII text as the inputs hash |
| PlonkBinding.TamperedFinalProof | zk/verifiers/plonk_verifier.py:121-138 | the same for another ASCII text as the final proof |
| PlonkBinding.TamperedKeyId | zk/verifiers/plonk_verifier.py:140-150 | the same for another key id that is not empty |
| PlonkBinding.NonAsciiIsBackendError | zk/verifiers/plonk_verifier.py:129-204 | text beyond ASCII in the place of the inputs hash or the final proof is answered as a backend error after the checks before it |
| PlonkBinding.MissingMetadata | zk/verifiers/plonk_verifier.py:87-150 | leaving out the trace hash or the key id keeps a proof bound; leaving out the circuit hash does not |
| PlonkBinding.EarlyAnswers | zk/verifiers/plonk_verifier.py:60-82 | the answers before any binding: wrong proof system, inputs that do not parse, no landed cost |
| PlonkBinding.BuildsExactly | zk/provers/plonk_prover.py:38-50 | the prover builds a proof exactly for the witness's own trace hash, 64-digit hashes and a landed cost that is a number |
| PlonkBinding.InstanceSpellsStatement | zk/verifiers/plonk_verifier.py:152-158 | the backend is asked about the encoded landed cost and the trace, circuit and inputs hashes, in that order |
| PlonkBinding.HonestProofReachesBackend | zk/provers/plonk_prover.py:38-110 | for a built proof the verifier recomputes the same hashes and the prover's own instance |
| PlonkBinding.HashesAreAscii | zk/verifiers/plonk_verifier.py:40-50 | the source's inputs hash and final proof are ASCII text, which an honest proof needs to pass |
| PlonkBinding.FinalProofBinds | zk/verifiers/plonk_verifier.py:40-50 | one final proof means one blob, one list of commitments, one statement |
| WireFormat.FinalProofText | zk/verifiers/plonk_verifier.py:40-50 | the object hashed to the final proof: its seven members and their order |
| WireFormat.FinalProofFields | zk/verifiers/plonk_verifier.py:40-50 | what each member of that object holds |
| DagScheduler.ScanPending | coordinator/system.py:266-282 | one pass by name, in code-point order: each pending task is started, blocked or left waiting, with the failures known at its turn |
| DagScheduler.ExecuteReadySet | coordinator/system.py:325-343 | one result per ready task, in completion order |
| DagScheduler.RecordResults | coordinator/system.py:290-297 | results are classified and appended; an artifact that cannot be added raises |
| DagScheduler.ExecuteDag | coordinator/system.py:257-298 | terminates; every task once in results or blocked on return; dependencies first; what a stall leaves |
| DagScheduler.ListedHasFailed | coordinator/system.py:267-269 | a blocked task lists exactly those of its dependencies that had failed or been blocked by memory before its turn |
| DagScheduler.FailedDependenciesOf | coordinator/system.py:267 | the list keeps the order of declaration |
| TaskConstraints.EnforceTaskConstraints | coordinator/system.py:345-369 | a result stays a success exactly within its limits and with the expected types; otherwise artifacts are dropped and violations become errors |
| TaskConstraints.ArtifactViolations | coordinator/system.py:353-361 | exactly the artifacts above the size limit in order, then exactly the circuits above the constraint limit in order |
| TaskConstraints.AtTheLimits | coordinator/system.py:351-361 | a size, constraint count or duration at its limit is allowed, one above is not, and an absent limit allows everything |
| DagOutcomes.FateUnfolds | coordinator/system.py:266-282 | the fates, a least fixpoint, satisfy their equation on every graph, cyclic ones included |
| DagOutcomes.RecordedFate | coordinator/system.py:257-298 | every recorded task has the fate that graph and oracles determine |
| DagOutcomes.OrderIndependence | coordinator/system.py:289-297 | two returning runs agree on every task, whatever order agents finish in |
| DagOutcomes.RanAtDepth | coordinator/system.py:263-297 | on every graph a task runs in the round equal to its longest path of dependencies |
| DagOutcomes.StallsExactly | coordinator/system.py:285-288 | on every graph a run that raises nothing else stalls if and only if a task starves or is blocked unnoticed |
| DagOutcomes.StallNamesExactly | coordinator/system.py:285-288 | the tasks that the stall error names are exactly those |
| DagOutcomes.EndIsDetermined | coordinator/system.py:285-297 | two runs that raise nothing else both return, or both stall with the same tasks named, whatever order agents finish in |
| DagOutcomes.StallsWithoutMemoryBlocks | coordinator/system.py:267-288 | without memory blocks: if and only if a task starves, behind a dependency_failed block, a missing dependency or a cycle |
| DagOutcomes.EveryTaskRunsAtItsDepth | coordinator/system.py:257-298 | with closed acyclic dependencies and nothing failing, no stall, and every task succeeds at its depth |
| DagOutcomes.FinishesExactlyIfAcyclic | coordinator/system.py:257-298 | with closed dependencies and nothing failing, a run finishes if and only if the dependencies are acyclic |
| DagOutcomes.NamesDecide | coordinator/system.py:266-288 | two tasks and a memory block: the run stalls exactly when the dependent's name is less by code points |
| ArtifactGraph.Store.AddArtifact | coordinator/artifact_graph.py:30-44 | the new graph and the outcome, partial state on an unknown parent included; what the outcomes mean is fixed by the rows below |
| ArtifactGraph.AddOutcome | coordinator/artifact_graph.py:36-44 | a normal addition adds the node and exactly its edges, strictly increasing after the sort |
| ArtifactGraph.LaterCallWithId | coordinator/artifact_graph.py:31-35 | after a call with a new id and whatever ran since, a call with that id returns the existing artifact exactly when the content hashes agree, collides otherwise, and leaves the graph as it is |
| ArtifactGraph.UnknownParentOutcome | coordinator/artifact_graph.py:39-42 | a call with an unknown parent names the least unknown one by code points and leaves the node and the edges from lesser parents |
| ArtifactGraph.EdgesInCodePointOrder | coordinator/artifact_graph.py:43 | after an addition the edges are ordered by parent and then child, by code points |
| ArtifactGraph.AddKeepsIndexes | coordinator/artifact_graph.py:36-42 | every call, failing ones included, keeps both indexes exact, endpoints known and every edge single |
| ArtifactGraph.AnyRunKeepsIndexes | coordinator/artifact_graph.py:36-43 | after any run, failing calls and self-parents included: exact indexes, known endpoints, no edge twice |
| ArtifactGraph.AcyclicUnlessSelfParent | coordinator/artifact_graph.py:36-42 | a new artifact is added exactly when each parent is known or itself, and then keeps the edges acyclic if and only if it is not its own parent |
| ArtifactGraph.SelfParentMakesLoop | coordinator/artifact_graph.py:36-42 | an artifact that names itself as a parent is accepted and makes a loop |
| ArtifactGraph.AcyclicWithoutSelfParent | coordinator/artifact_graph.py:36-43 | every call without a self-parent keeps the edges acyclic, one that raises on an unknown parent included |
| ArtifactGraph.AnyRunStaysAcyclic | coordinator/artifact_graph.py:30-44 | after any run without self-parents, failing calls included, the edges are acyclic |
| ArtifactGraph.RunsKeepGraph | coordinator/artifact_graph.py:30-44 | after any run of returning calls: edges acyclic, sorted, duplicate-free, known endpoints, exact indexes |
| ArtifactGraph.BatchAdds | coordinator/system.py:289-297 | nodes and edges after a batch of new artifacts, said without its order |
| ArtifactGraph.BatchOrderIndependence | coordinator/system.py:289-297 | another order of the batch gives the same artifacts and the same edge list |
| ArtifactGraph.DependenciesAfterAdd | coordinator/artifact_graph.py:86-87 | the sorted list of a new artifact's parents is the given ones, each once; those of older artifacts do not change |
| ArtifactGraph.Store.ArtifactsByType | coordinator/artifact_graph.py:52-54 | exactly the artifacts of the type, each once |
| ArtifactGraph.Store.ArtifactsByProducer | coordinator/artifact_graph.py:56-64 | exactly the producer's matching artifacts, each once, ordered by cycle and then id by code points |
| ArtifactGraph.Store.Latest | coordinator/artifact_graph.py:66-75 | the greatest matching artifact by cycle and then id by code points, or none exactly when none matches |
| ProofQueue.RunOk | backend/proof_queue.py:67-154 | in every reachable queue every history is legal, every live job in its phase, and an unmirrored completed event last only while its worker lives |
| ProofQueue.CompletedIsFinal | backend/proof_queue.py:97-154 | in every reachable queue without a live job of the task, a completed event is last if and only if it was mirrored; only failed can follow it |
| ProofQueue.CompletedStays | backend/proof_queue.py:67-154 | a mirrored completed task stays so, whatever runs after |
| ProofQueue.CompletedCanBeLeft | backend/proof_queue.py:140-154 | the run pending, processing, completed, failed: a task leaves completed |
| ProofQueue.PendingOnlyAfterFailed | backend/proof_queue.py:80-95 | in every reachable queue a task is pending exactly first and after failed |
| ProofQueue.FoldAgreesWithScan | backend/proof_queue.py:156-167 | the forward fold of the snapshot agrees with the reverse scan |
| ProofQueue.StatusesPartition | backend/proof_queue.py:168-175 | the four counts add up to the number of distinct ids |
| ProofQueue.KeepsLegal | backend/proof_queue.py:44-59 | appending a legal next event keeps every task's history legal |
| ProofQueue.Queue.Submit | backend/proof_queue.py:67-95 | accepted exactly for unknown and failed tasks; the new events and live jobs |
| ProofQueue.Queue.Start | backend/proof_queue.py:97-107 | appends processing; the worker lives on only if it was mirrored |
| ProofQueue.Queue.Finish | backend/proof_queue.py:109-154 | appends completed or failed and ends the job, or leaves the failed write to be recorded |
| ProofQueue.Queue.RecordBrokenWrite | backend/proof_queue.py:141-154 | the handler appends failed after a completed event whose mirror write failed |
| ProofQueue.Queue.GetTask | backend/proof_queue.py:156-161 | the reverse scan finds the last event of the task |
| ProofQueue.Queue.Snapshot | backend/proof_queue.py:163-175 | counts of the latest events by status, adding up to the distinct ids |
| RateLimiter.AnyWindowHoldsAtMostLimit | security/rate_limit.py:27-38 | hits spaced as the limiter spaces them put at most limit into any half-open window |
| RateLimiter.Decide | security/rate_limit.py:27-38 | for any reading: what is kept, and allowed exactly when fewer than limit hits are left by the eviction; remaining and reset time |
| RateLimiter.InOrderStep | security/rate_limit.py:27-38 | for a reading not before the earlier ones: the hits left are those allowed within the window that ends now, and all allowed hits stay spaced |
| RateLimiter.InOrderRunsHold | security/rate_limit.py:27-38 | if calls get the lock in clock order no window of a key holds more than limit allowed calls |
| RateLimiter.OutOfOrderExceeds | security/rate_limit.py:27-38 | readings 0, 0.1, 5.2, 4.9, 4.95 in lock order: with limit 3 and window 5 four calls of one window are allowed |
| RateLimiter.Limiter.Allow | security/rate_limit.py:27-38 | the same per key, for any reading; in clock order allowed exactly when fewer than limit calls were allowed within the window |
| RateLimiter.Limiter.NoWindowExceedsLimit | security/rate_limit.py:27-38 | over the life of a limiter whose calls got the lock in clock order no window of a key holds more than limit allowed calls |
| RateLimiter.Create | security/rate_limit.py:17-25 | a limiter exactly for a positive limit and window |

## Left out

- The numeric primality of `FIELD_ORDER`, and whether it is the modulus of the backend's field: the modulus is an abstract prime, and the gate equations are proved over the integers.
- Circuit soundness: the backend copies no wire from one gate to another, so only columns that the generator computed are said to hold exactly for the right landed cost.
- Halo2 proving and verification, key manifests, the subprocess bridge and the log files: the backend is an oracle.
- PlonkBinding.HashHexToLimbs: takes lower-case hexadecimal text only; the upper-case, signed, underscored and padded forms that Python's `int(x, 16)` also accepts are not modelled, because digests never have them.
- PlonkBinding.VerifyPlonkProof: the reason texts and metadata of a result and the backend's own check names are not modelled, because no binding depends on them.
- Validation and Unicode normalisation of requests: the engine is given validated amounts, the canonical JSON values without floating-point numbers.
- `utils/canonical.py`: on values that need no normalisation its text is the canonical text modelled here.
- ChainCheckpoint.NoCheckpointsRefines: says nothing about the last hash of an invalid result, because there the checkpointed verifier reports the hash before the segment and the full one the hash before the broken record.
- EvidenceProtocol.StepKeepsInv: a failed commit is a rollback, because commits whose outcome the client cannot learn are outside the protocol; cancellation of a call is not modelled either.
- EvidenceSerial.OneEventPerCall: a commit and the release of its connection are one step; a release that raises after the commit (app/db/repository.py:273-274) would make the service log a failure event, or retry into a duplicate event, for a call that was persisted.
- EvidenceProtocol.InsertNeverConflicts: covers the unique input hash; collisions of name-based UUIDs, the primary keys, are not modelled, because they are collisions of a hash.
- InMemoryRepository.CalculateAndPersist: the compute phase before the transaction, the chain metrics and the sleep between attempts have no effect on the stored state and are not modelled.
- DagScheduler.ExecuteReadySet: agents, their exceptions and the enforcement of constraints are the oracle `succeeds`, and the completion order is a parameter, because thread scheduling is not part of the code; enforcement itself is `TaskConstraints.EnforceTaskConstraints`.
- DagScheduler.ExecuteDag: an agent's outcome, the strategy memory and artifact resolution are fixed functions during one run, because runs are compared that differ in completion order only; whether a result passes is what `TaskConstraints` decides.
- ProofQueue.Queue.Submit: is atomic; two racing submits of one task could both pass the check, because the code checks and appends in separate critical sections.
- RateLimiter.Limiter.NoWindowExceedsLimit: holds for calls that get the lock in clock order, because the code reads the clock before it takes the lock and does not enforce that order; `RateLimiter.OutOfOrderExceeds` shows the bound fail without it.
- RateLimiter.Decide: time is a real number, not a floating-point one.
- The HTTP routes, dashboards, SDK builders and bundle verifiers, the other witness generators, agents, performance scores and attestation: straight-line code or counters that would add easy members only.
