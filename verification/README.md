# Erasure Proof: verified model

A Dafny model of a service that erases a person's data by destroying the key it is encrypted under and
keeps a hash-chained, Merkle-logged, signed record that it did so. `dafny verify dfyconfig.toml` checks
everything.

The model has three layers that meet, and four stateful components beside them.

1. **The transparency tree.** The Go prover is recursive; the consistency verifier is a loop over the bits
   of two sizes. `ConsistencyRefinement` shows that the bit form rebuilds, for every pair of sizes and every
   proof, exactly what replaying the recursion backwards rebuilds. Completeness and soundness of the
   verifier follow (`ConsistencyTheorems`), and the browser's 32-bit version, on hexadecimal text, gives the
   same verdicts (`Browser`) for exactly the tree sizes that `BrowserSizes` names.
2. **The destroy-and-retain protocol.** The four tables and the SQL statements (`Tables`), the erasure,
   anchoring and reconciliation code (`Erasure`), provisioning (`Ingest`), and their interleavings (`Runs`):
   any number of erasers, ingesters and reconcilers, with stale reads that abort and retry, commits whose
   acknowledgement is lost, errors at any point, and replies from the signer that may be missing or
   incomplete. `Protocol`, `Ledger` and `CryptoErasure` say what every run guarantees; `Ledger` says it in bytes.
3. **The join.** Every document ever sent for signing in any run passes the browser's transparency check
   against the service's own answers, however far the log grows before and between the check's three
   fetches (`Transparency`).
4. **Components.** The forensic audit and its non-atomic tools (`Agent`), the live feed, its fan-out hub and
   a console session (`Stream`, `Console`), the background inversion job (`Jobs`), the rolling-hour budget
   (`Budget`), and DER signature conversion (`Der`).

**Hashing.** SHA-256 is an arbitrary function `sha` from bytes to 32 bytes, a parameter of every definition
that hashes; nothing assumes that it is injective. Soundness is stated with extractor functions
(`InclusionClash`, `LeavesClash`, `ReplayClash`, `PrefixClash`, `ChainClash`, `TransparencyClash`,
`SeqClash`) that compute two colliding inputs from what a verifier accepted, or `None`.

**Keys.** KMS, AES key wrap and AES-GCM are symbolic: each ingest call draws fresh key names, and an
operation succeeds only with the right key, context and associated data.

## What the proofs found

- The split-point loop of the browser (`web/src/verify.ts:135-141`) stops exactly for sizes up to 2^30
  (`Browser.SplitLoopStops32Iff`). So inclusion checking hangs exactly when its guards pass, every text decodes,
  the audit path is not empty and the tree has more than 2^30 leaves; with an empty path it still answers
  (`Browser.VerifyInclusion32`).
- Consistency checking gives the Go verdict on every proof between two sizes if and only if the sizes are out of
  order or equal, or the newer is at most 2^31, or the older is above 2^31 and the newer at most 2^32
  (`BrowserSizes.SizesAgreeIff`). That covers the domain `web/src/verify.ts:206` claims for its helpers. Everywhere
  else, but from exactly 2^31 to at most 2^32, the browser accepts no genuine proof (`BrowserSizes.GenuineRejected`):
  so for every older size below 2^31 once the newer one is above it. From 2^31 to at most 2^32 it accepts a single
  hash if it equals both roots, where Go demands that the newer root be the node over the older root and that hash
  (`BrowserSizes.AtTheSignBit`). Above 2^32 it can accept what Go rejects: a proof for two leaves passes for 2^32 + 2
  (`Browser.LargeSizeIsMisjudged`). An older size that is a multiple of 2^32 makes it hang
  (`Browser.VerifyConsistency32`).
- `res` in `Erase` survives an aborted attempt, so the handler's test `res.Seq == 0` does not mean "nothing was
  committed" by its negation: it can answer that an erasure is done when it is not
  (`Protocol.ErasedClaimCanBeFalse`). In every run the answer is false exactly when the call failed before its
  commit after some attempt of it had set `res` (`Protocol.ErasedAnswerInRun`). The opposite answer, "erasure
  failed", is always true (`Protocol.FailedMeansNotErased`).
- A minimal DER signature that happens to be 64 bytes long is taken for a raw one (`Der.DerRoundTrip` is an
  if-and-only-if), and such signatures exist: r = s = 2^224 (`Der.SixtyFourByteDerIsMisread`).
- A DER signature cut short inside its second integer, or right after its tag, is not refused: the missing bytes are
  read as zeros (`Der.TruncatedIsZeroFilled`, `Der.MissingLengthIsZero`). Whole integers are read by value in any
  encoding, and refused exactly beyond 32 bytes (`Der.DerReadsValues`).
- The hash chain covers a row's text, not its columns. Two rows share a canonical form exactly when they agree on
  the seq and on the text that action, `|`, basis and subject hash make together (`Chain.CanonicalRowSameIff`). In
  every intact chain the last byte of a `lawful_basis` can be moved to the front of the `subject_hash` with no
  verifier noticing (`Chain.ShiftedRowIsUndetected`): neither checks the vocabulary or the hash width, and
  `decision_log` has no constraint that does. A bar-free action and a 32-byte subject hash are a sufficient test
  that a verifier could add (`Chain.SameTextSameContent`); `Erase` writes only such rows.
- The comment at `services/api/internal/erasure/orchestrator.go:178` says that the log does not change during a
  reconcile run. It can (`Protocol.LogGrowsDuringSweep`), so a proof anchored by a sweep may be of an older tree than
  the current one. Nothing depends on it: the rows are listed before the head is read, and the document is truthful
  (`Protocol.SweepUnderCommit`).
- The package comment of `services/api/internal/stream/hub.go` says that ingests append rows to the log. Only
  `Erase` does.
- The transparency check never compares the leaf index the server names with the signed seq. What it proves is
  that the signed head is in the signed tree at the named index (`Transparency.PassedCheckMeans`); a document whose
  head is another row's passes (`Transparency.WrongSeqPasses`). Over the service's own log the missing guard
  `leaf_index == decision_log_seq - 1` is exact: it holds if and only if the signed head is the hash of the row of the
  signed seq, or a collision is computed (`Transparency.IndexGuardIsExact`).
- When the snapshot query of the stream fails, the handler sends an empty snapshot marked live and streams on. The
  console then never shows the rows published before it subscribed (`Console.FailedSnapshotMisses`).

## Model

| member | source | states |
|---|---|---|
| Merkle.LargestPowerOfTwoLessThan | services/api/internal/merkle/merkle.go:32-38 | the doubling loop returns the RFC 6962 split point, for n up to 2^62, where the 64-bit `k` does not overflow |
| Words.SplitLoopStopsIff | web/src/verify.ts:135-141 | in w-bit words the split-point loop stops if and only if n <= 2^(w-2); beyond that k overflows to 0 and stays there |
| Merkle.ComputeRootOfProof | services/api/internal/merkle/merkle.go:59-128 | the root computed from a genuine audit path is the genuine root, for every leaf list and index |
| Merkle.InclusionExact | services/api/internal/merkle/merkle.go:59-128 | against the genuine root the verifier accepts the genuine leaf hash and path, and anything else it accepts yields a collision computed by InclusionClash |
| Merkle.RootBinding | services/api/internal/merkle/merkle.go:13-54 | for any two leaf lists of any lengths equal roots mean equal lists, or LeavesClash computes a collision: the root commits to the size and keeps leaves and nodes apart |
| Merkle.RootByLevels | services/api/internal/merkle/merkle.go:13-54 | for every leaf list the recursive root is the root built bottom-up: leaves hashed behind a byte 0, neighbours behind a byte 1, an odd last one carried, with no split point |
| Consistency.ChainInner | services/api/internal/merkle/consistency.go:99-107 | the loop over the bits of index is the fold Inner |
| Consistency.ChainInnerRight | services/api/internal/merkle/consistency.go:112-119 | the loop is the fold InnerRight, which takes only the right-hand steps |
| Consistency.ChainBorderRight | services/api/internal/merkle/consistency.go:122-127 | the loop is the fold BorderRight |
| Consistency.ShiftBelowInner | services/api/internal/merkle/consistency.go:63-65 | the trailing zeros of m never exceed the inner size, so `inner - shift` is not negative |
| Consistency.VerifyConsistency | services/api/internal/merkle/consistency.go:44-84 | the imperative verifier decides the predicate Accepts on every input, malformed ones included |
| ConsistencyRefinement.ReplayIsPath | services/api/internal/merkle/consistency.go:25-38 | undoing SUBPROOF top-down is a walk from a seed, which is omitted exactly when m is a power of two |
| ConsistencyRefinement.PathHalves | services/api/internal/merkle/consistency.go:63-82 | an even boundary can be halved: dropping the trailing zeros of m rebuilds the same two roots |
| ConsistencyRefinement.ClimbIsBits | services/api/internal/merkle/consistency.go:88-127 | climbing from leaf i of n by recursive splits is the bit form: xor length, popcount, and the bits of i |
| ConsistencyRefinement.RebuildIsReplay | services/api/internal/merkle/consistency.go:44-127 | the bit form (seed choice, decomposition, masks, two chains) rebuilds what replaying the recursion rebuilds, on every proof and all sizes 0 < m < n |
| ConsistencyTheorems.ReplayOfSubproof | services/api/internal/merkle/consistency.go:25-38 | replaying the proof that SUBPROOF produces gives the two genuine roots |
| ConsistencyTheorems.ConsistencyComplete | services/api/internal/merkle/consistency.go:12-127 | for every leaf list and every 0 < m <= n the verifier accepts the prover's proof with the two genuine roots |
| ConsistencyTheorems.ConsistencyExact | services/api/internal/merkle/consistency.go:44-84 | against the genuine newer root, acceptance means the prover's own proof and the genuine older root, or ReplayClash computes a collision; and those are accepted |
| ConsistencyTheorems.AcceptedMeansPrefix | services/api/internal/merkle/consistency.go:40-84 | a proof accepted between the roots of two logs means that the older is a prefix of the newer, or PrefixClash computes a collision |
| ConsistencyTheorems.InclusionProofSize | services/api/internal/merkle/merkle.go:59-69 | an audit path has inner + border hashes, at most ceil(log2 n) |
| ConsistencyTheorems.ConsistencyProofSize | services/api/internal/merkle/consistency.go:12-96 | a consistency proof has start + inner + border hashes, at most ceil(log2 n) + 1, the bound of RFC 6962 section 2.1.2 |
| ConsistencyTheorems.LenIsCeilLog | services/api/internal/merkle/consistency.go:94-96 | the bit length of n - 1 is the least e with n <= 2^e |
| Hex.ToHexIsHex | web/src/verify.ts:17-19 | encoded bytes are lowercase hexadecimal and decode to themselves |
| Hex.FromHexRoundTrip | web/src/verify.ts:103-112 | decoding hexadecimal text and encoding it again lowercases it |
| Hex.SameHexSameBytes | web/src/verify.ts:202-202 | comparing encoded bytes with lowercased text compares the bytes themselves |
| Browser.ZerosLoopStopsIff | web/src/verify.ts:209-217 | the `>>>=` loop of trailingZeros ever meets a one bit if and only if the low 32 bits are not all zero |
| Browser.TrailingZeros32 | web/src/verify.ts:209-217 | for every size: the trailing zeros of its low 32 bits, or no answer exactly when the loop never stops |
| Browser.BitLen | web/src/verify.ts:219-226 | the Math.floor loop computes the bit length, and 0 for a negative word |
| Browser.OnesCount32 | web/src/verify.ts:228-235 | the `>>>=` loop counts the one bits of any unsigned word, which is all it is called on |
| Browser.SplitLoopStops32Iff | web/src/verify.ts:135-141 | with the 32-bit `<<=` the split-point loop stops if and only if the size is at most 2^30 |
| Browser.LargestPowerOfTwoLessThan32 | web/src/verify.ts:135-141 | for every size: the RFC 6962 split point, or no answer exactly when the loop never stops |
| Browser.ChainInner32 | web/src/verify.ts:237-243 | with 32-bit shifts the chain is the Go fold Inner |
| Browser.ChainInnerRight32 | web/src/verify.ts:245-257 | with 32-bit shifts the chain is the Go fold InnerRight |
| Browser.DecodeAll | web/src/verify.ts:197-201 | decoding fails exactly when some text is not hexadecimal |
| Browser.ComputeRoot32 | web/src/verify.ts:146-167 | for every size: the Go root, or null exactly when Go fails, unless there is a path to follow beyond 2^30 leaves, when it never returns |
| Browser.VerifyInclusion32 | web/src/verify.ts:183-203 | for every size: it hangs if and only if the guards pass, all texts decode, the path is not empty and the tree exceeds 2^30 leaves; throws if and only if the guards pass and some text does not decode; else the Go verdict on hexadecimal arguments, and nothing else is ever accepted |
| Browser.VerifyConsistency32 | web/src/verify.ts:274-315 | for every size: it hangs exactly when the guards pass and the older size is a multiple of 2^32; else it decides Accepts32 on hexadecimal arguments, and a proof between different sizes is accepted only if all its text is hexadecimal |
| Browser.SliceParts | web/src/verify.ts:309-310 | the two slices at any bound, negative ones included, make up the whole proof, and how long the first is |
| BrowserSizes.SizesAgreeIff | web/src/verify.ts:274-315 | for every hash function and any two sizes: the 32-bit verdict is the Go verdict on all proofs and roots if and only if SizesAgree, a test on the two sizes |
| BrowserSizes.LengthsDiffer | web/src/verify.ts:286-301 | outside SizesAgree, with an older size that is no multiple of 2^32, the browser and Go want proofs of different lengths, but for an older size of 2^31 with a newer one up to 2^32 |
| BrowserSizes.GenuineRejected | web/src/verify.ts:274-315 | outside SizesAgree, but for that case, the prover's proof for any leaf list is accepted by Go with the genuine roots and not by the browser |
| BrowserSizes.AtTheSignBit | web/src/verify.ts:288-314 | from 2^31 to at most 2^32, on proofs of one hash: the browser accepts exactly when it equals both roots, Go exactly when the newer root is the node over the older root and it |
| Browser.LargeSizeIsMisjudged | web/src/verify.ts:288-294 | a proof that extends one leaf to two is accepted as extending it to 2^32 + 2, where Go rejects it |
| Der.ReadIntAt | web/src/verify.ts:50-70 | reading one DER integer at an offset, with the undefined bytes and lengths JavaScript tolerates, agrees with the specification ReadInt |
| Der.ToRawSignature | web/src/verify.ts:37-76 | the buffer-filling conversion agrees with the specification ToRaw on every input |
| Der.BigEndian32Value | web/src/verify.ts:67-69 | the padded 32 bytes have the value of the integer |
| Der.ReadsIntegerAt | web/src/verify.ts:50-69 | an integer of any encoded length, minimal or not, is read by value into 32 bytes, and refused exactly if its value needs more |
| Der.DerReadsValues | web/src/verify.ts:37-76 | two integers behind a header in short or long form, with or without trailing bytes, convert by value, or throw exactly if one of them needs more than 32 bytes |
| Der.TruncatedIsZeroFilled | web/src/verify.ts:66-68 | a second integer of at most 32 bytes that is cut short converts with its missing bytes read as zeros |
| Der.MissingLengthIsZero | web/src/verify.ts:54-68 | a signature that ends with the tag of its second integer converts with that integer read as zero |
| Der.OtherTagThrows | web/src/verify.ts:43-53 | no SEQUENCE tag, or anything but an INTEGER tag where either integer should stand, throws |
| Der.DerRoundTrip | web/src/verify.ts:37-76 | for all r, s below 2^256 the minimal DER encoding (X.690 section 8.3) converts to r, s as 64 big-endian bytes if and only if it is not itself 64 bytes long, which is when the integers take 58 octets |
| Der.SixtyFourByteDerIsMisread | web/src/verify.ts:37-42 | r = s = 2^224 has such an encoding, and it does not convert to its r, s |
| Der.RawIsUnchanged | web/src/verify.ts:38-42 | every 64-byte input is the raw form of exactly one pair of integers and converts to that pair's raw form |
| Chain.CanonicalRowSameIff | services/api/internal/chain/chain.go:24-28 | two rows share one canonical form if and only if they have the same seq and the same text of action, bar, basis and subject hash |
| Chain.DecimalParses | services/api/internal/chain/chain.go:25-25 | the decimal seq has the right value, no leading zero, a minus exactly when negative, and no bar |
| Chain.SameTextSameContent | services/api/internal/chain/chain.go:24-28 | with bar-free actions and 32-byte subject hashes the same text means the same columns |
| Chain.CanonicalRowInjective | services/api/internal/chain/chain.go:24-28 | rows with a bar-free action and a 32-byte subject hash have different canonical forms unless they agree on seq, action, basis and subject hash |
| Chain.CanonicalRowAmbiguous | services/api/internal/chain/chain.go:24-28 | without either condition two different rows share one canonical form |
| Chain.VerifyChain | services/api/internal/demo/demo.go:679-709 | intact if and only if every row links to its predecessor; otherwise the count and seq name the first row that does not |
| Chain.VerifyHashChain | services/mcpserver/src/forensics_mcp/tools.py:28-44 | the Python "valid" is the Go "intact" plus matching prev_hash columns; a break is reported at the first bad row |
| Chain.ChainTamperEvident | services/api/internal/chain/chain.go:13-35 | of two intact logs of one length and one final hash, ChainClash computes a collision, or is None, which is exactly when they agree on every hash and every row's text; rows that are bar-free with 32-byte subject hashes then agree on every column |
| Chain.TamperedRowBreaks | services/api/internal/demo/demo.go:679-709 | rewriting any row i of an intact chain and keeping its hash: it stays intact if and only if the row's text is unchanged or the two inputs collide, and else breaks exactly at i |
| Chain.ShiftedRowIsUndetected | services/mcpserver/src/forensics_mcp/tools.py:28-44 | in every intact chain any row with a basis can be rewritten, moving one byte from basis to subject hash, so that both verifiers still accept the whole log |
| Tables.GaplessOrder | db/queries/demo.sql:50-57 | reading a gapless log in seq order gives the rows as inserted |
| Tables.InSeqOrderSorts | db/queries/demo.sql:44-64 | for any rows ordering by seq permutes them and sorts them ascending |
| Tables.ChainHeadIsMax | db/queries/erasure.sql:17-22 | for any rows the chain head is a row with the largest seq, and missing exactly when there are no rows |
| Tables.AppendKeepsLog | services/api/internal/erasure/erasure.go:148-172 | the row computed from the current head has seq N+1, a free primary key, and extends the log gapless and linked |
| Tables.RowsOfNulled | db/queries/erasure.sql:36-40 | purging the vectors of one subject changes nothing but that subject's vectors |
| Tables.EraseCommits | db/queries/erasure.sql:9-46 | an erase commit from the current head hits no primary key, keeps every table invariant, and moves only its subject, from live to erased |
| Tables.IngestCommits | db/queries/memory.sql:3-17 | an ingest commit for an unknown subject hits no primary key, keeps every table invariant, and moves only its subject, from unknown to live |
| Tables.ProofCommits | db/queries/erasure.sql:48-55 | recording a truthful proof keeps every table invariant and moves no subject |
| Tables.TruthfulStays | services/api/internal/erasure/orchestrator.go:92-132 | a truthful document stays truthful in every later log |
| Erasure.EraseOutcome | services/api/internal/erasure/erasure.go:118-195 | each outcome names the phase found; success is the committed row, record and purge spelled out column by column, moves only that subject, and no outcome is a primary-key conflict |
| Erasure.EraseRefuses | services/api/internal/erasure/erasure.go:118-124 | a request outside the vocabularies is refused, by action first and basis second, exactly then, and a refusal changes nothing |
| Erasure.ActionBytes | services/api/internal/erasure/erasure.go:28-47 | the valid actions, byte by byte |
| Erasure.BasisBytes | services/api/internal/erasure/erasure.go:28-56 | the valid bases, byte by byte |
| Erasure.Database.Erase | services/api/internal/erasure/erasure.go:118-195 | the statements one by one, rolled back when one fails, make the atomic transaction EraseTxn |
| Erasure.Database.MerkleHead | services/api/internal/erasure/orchestrator.go:68-86 | the loop over the leaves gives the tree head of the log in seq order |
| Erasure.Database.AnchorProof | services/api/internal/erasure/orchestrator.go:92-132 | the proof is recorded if and only if the reply is complete and the record exists; otherwise nothing changes |
| Erasure.Database.UnanchoredErasures | db/queries/erasure.sql:61-70 | the list holds exactly the records without a proof body, each once and joined to its own log row |
| Erasure.Database.Reconcile | services/api/internal/erasure/orchestrator.go:138-204 | an uninterrupted sweep records a proof for exactly the pending rows whose reply is complete, and returns their number |
| Erasure.ReconcileOutcome | services/api/internal/erasure/orchestrator.go:138-204 | after a sweep the pending rows are those before less those recorded with a non-empty body, and every table invariant holds |
| Erasure.SweepDocTruthful | services/api/internal/erasure/orchestrator.go:175-199 | the document a sweep requests states its own row's facts and a tree that contains the row |
| Ingest.IngestOutcome | services/api/internal/ingest/ingest.go:169-203 | each outcome names the phase found (the resurrection guard); storing adds exactly the prepared key and row for an unknown subject and leaves log, records and all other rows alone |
| Ingest.Ingest | services/api/internal/ingest/ingest.go:127-203 | foreign associated data is refused before the transaction; otherwise the two inserts make the atomic IngestTxn, whatever head was read before |
| Runs.CommitIffReadsHold | services/api/internal/erasure/erasure.go:127-195 | a pending commit goes through exactly when a re-read would give what the closure saw; otherwise the call retries, never at a primary-key conflict |
| Runs.CommitIsAtomic | services/api/internal/erasure/erasure.go:127-195 | a commit that goes through is one atomic run of the transaction on the tables of that moment, with `res` as its result |
| Runs.CommitKeeps | services/api/internal/erasure/erasure.go:127-195 | a commit, retry or lost acknowledgement of one call keeps every invariant, those of all other calls included |
| Runs.AnchorKeeps | services/api/internal/erasure/orchestrator.go:34-132 | anchoring from a result and a head read at different times keeps every invariant |
| Runs.SweepAnchorKeeps | services/api/internal/erasure/orchestrator.go:138-204 | one step of a sweep over a stale list and head keeps every invariant |
| Runs.CommitIngestKeeps | services/api/internal/ingest/ingest.go:169-203 | an ingest commit prepared from a stale head keeps every invariant |
| Runs.NextKeeps | services/api/internal/erasure/orchestrator.go:34-204 | every step of every participant keeps every invariant, and the tables only move forward |
| Runs.RunMovesForward | services/api/internal/erasure/erasure.go:118-195 | along every run the log only grows, records stay, and phases only move forward |
| Protocol.GaplessUnderContention | services/api/internal/erasure/erasure.go:118-195 | in every run seqs are 1..N and rows linked; rows, records and committed calls match one to one; nil-error calls have different seqs, each its own committed row and record, its key gone |
| Protocol.LifeCycle | services/api/internal/ingest/ingest.go:169-203 | in every run each subject is in exactly one phase (with one key, row and vector, or one record and no vector), phases only move forward, and no insert ever conflicts |
| Protocol.ClosureNamesPhase | services/api/internal/erasure/erasure.go:127-147 | one run of the closure answers not-found, already-erased or a result with the next seq, by the subject's phase |
| Protocol.ProofsTellTheTruth | services/api/internal/erasure/orchestrator.go:34-204 | in every run each document sent for signing is truthful then and later; each recorded body is such a document about its own subject, confirmed by the signer |
| Protocol.FailedMeansNotErased | services/api/internal/httpapi/server.go:174-189 | an error answer of the erase handler means that this call committed nothing |
| Protocol.ErasedClaimIsTrueIff | services/api/internal/httpapi/server.go:181-196 | at the step that ends a call: its "erased" answer is true if and only if the step is not an error before the commit |
| Protocol.ErasedAnswerInRun | services/api/internal/httpapi/server.go:174-196 | in every run: a call that is over was ended by an event of its own, and its "erased" answer is false if and only if that was an error before the commit and some attempt had set `res` |
| Protocol.ErasedClaimCanBeFalse | services/api/internal/httpapi/server.go:188-194 | a run in which the handler answers "erased, proof pending" with the subject live and the log empty |
| Protocol.OverIsFinal | services/api/internal/httpapi/server.go:171-196 | once a call is over neither its answer nor its being committed changes |
| Protocol.SweepUnderCommit | services/api/internal/erasure/orchestrator.go:175-199 | in every sound state with an erasure due to commit, it can commit between a sweep's reading of the head and its next anchor; the document asked for is then of a tree one leaf shorter than the log, and truthful |
| Protocol.LogGrowsDuringSweep | services/api/internal/erasure/orchestrator.go:178-181 | a run from the empty tables in which a sweep sends a document of a one-leaf tree while the log has two rows |
| Ledger.RowsSayWhatWasAsked | services/api/internal/chain/chain.go:13-35 | in every run log row i is that of one erase call: its action and basis, SHA-256 of its subject id, seq i + 1, and the SHA-256 of the previous hash (32 zero bytes at first) and "seq|action|basis" with the subject hash |
| Ledger.RecordsNameTheirSubjects | services/api/internal/erasure/erasure.go:159-160 | in every run the row of each erased subject carries the SHA-256 of its id, and two erased subjects share a subject hash only if they are one or their ids are a collision |
| Ledger.SignedDocsTell | services/api/internal/erasure/orchestrator.go:92-109 | in every run each document sent for signing tells, in text, then and later, of exactly one recorded subject: SHA-256 of its id, its row's hash and second, its key's fingerprint and ARN, and the root, built level by level, of the first tree-size rows |
| Ledger.SameSubjectHash | services/api/internal/erasure/orchestrator.go:92-109 | two such documents share a subject hash only if they are about one subject or the two ids are a collision |
| Ledger.AnchorOutcome | services/api/internal/erasure/orchestrator.go:34-132 | an anchor step sends the document of its own result and head, field by field; a complete recorded reply is stored with its own ref, body, signature and signer and the call ends with a proof; otherwise the tables stay as they were and it ends without one |
| Ledger.SweepAnchorOutcome | services/api/internal/erasure/orchestrator.go:182-203 | the same for a sweep and its next listed row, which is counted exactly when a proof is stored |
| Ledger.SweepListsPending | services/api/internal/erasure/orchestrator.go:138-173 | a sweep that begins lists each record without a proof or with an empty body, and no other, once |
| Ledger.ProofAnswerIsStored | services/api/internal/httpapi/server.go:195-195 | in every run a call answered with a proof has its subject's proof stored, with a signature and a signer, then and ever after |
| Ledger.AnswerNamesCause | services/api/internal/httpapi/server.go:174-195 | at the step that ends a call: 409 exactly if its closure found the subject erased, 404 exactly if it found it unknown, a proof exactly if this step stores one |
| Ledger.AnswerInRun | services/api/internal/httpapi/server.go:174-195 | the same over whole runs: every call that is over ended at an event of its own whose finding its answer names |
| Ledger.BegunAnswer | services/api/internal/erasure/erasure.go:118-124 | a call is over as soon as it begins exactly if its action or basis is invalid, and is then answered "erasure failed" |
| Ledger.CallsCanEnd | services/api/internal/erasure/orchestrator.go:38-66 | an error before the commit ends the call with that error, and one after it with the answer "erased, proof pending" |
| Ledger.EraseReachesProof | services/api/internal/erasure/orchestrator.go:34-66 | from every reachable state the erasure of a live subject can run, through an aborted attempt, to the answer with a proof: one row appended in the bytes above, the key gone, and the signer's reply to a document of the whole tree stored as it came |
| Transparency.ServeInclusion | services/api/internal/demo/demo.go:899-944 | the scanning loop answers InclusionAt, not-found included |
| Transparency.ServeConsistency | services/api/internal/demo/demo.go:959-983 | the clamping code answers ConsistencyAt, not-found included |
| Transparency.TreeHeadIs | services/api/internal/demo/demo.go:868-874 | over a gapless log the presented head is the root and size of all its rows |
| Transparency.InclusionAnswers | services/api/internal/demo/demo.go:899-944 | for any seq and size: an answer exists exactly for a row inside the requested tree, names its own index, size and leaf hash, and verifies against the root of that tree |
| Transparency.ConsistencyAnswers | services/api/internal/demo/demo.go:959-983 | for any two sizes: a newer size out of range stands for the whole log, there is no answer exactly for an older size out of range, and the proof is accepted between the two roots of those sizes, however long the log is by then |
| Transparency.CheckTransparency | web/src/pages/ProofVerifier.tsx:56-99 | for every size and server: on hexadecimal replies the check is BrowserStateOf, non-termination included, and it passes on no others |
| Transparency.WhenUndecided | web/src/pages/ProofVerifier.tsx:56-99 | the check is unavailable exactly if a signed field is missing, an error exactly if a needed fetch fails, and else done |
| Transparency.BrowserIsGo | web/src/pages/ProofVerifier.tsx:56-99 | when signed and presented sizes satisfy SizesAgree that is the verdict in terms of the Go verifiers, or the inclusion loop never stops on a signed tree above 2^30; inclusion is never accepted for such a tree |
| Transparency.TruthfulChecksOut | web/src/pages/ProofVerifier.tsx:56-99 | a truthful document gets inclusionOk and consistencyOk from the service, with the log growing between the three fetches |
| Transparency.EverySignedDocChecksOut | web/src/pages/ProofVerifier.tsx:56-99 | so does every document ever sent for signing in any run, at any three later points of the run; in the browser too, for signed trees up to 2^30 when signed and presented sizes satisfy SizesAgree |
| Transparency.PassedCheckMeans | web/src/pages/ProofVerifier.tsx:56-99 | against any server presenting the head of a leaf list D, a passed check means that the signed root is that of D's first leaves and the signed head one of them, at the index the server named, or TransparencyClash computes a collision; stated of the check with the Go verifiers |
| Transparency.PassedInBrowserMeans | web/src/pages/ProofVerifier.tsx:56-99 | the same of the browser's own check, when signed and presented sizes satisfy SizesAgree |
| Transparency.SameHashSameRow | services/api/internal/chain/chain.go:13-35 | two rows of one gapless, linked log with equal hashes are one row, or their hash inputs are a computed collision |
| Transparency.IndexGuardIsExact | web/src/pages/ProofVerifier.tsx:56-99 | when the browser's check passes against the head of the service's log: the signed head is the hash of the signed seq's row if and only if the named index is seq - 1, or SeqClash computes a collision |
| Transparency.WrongSeqPasses | web/src/pages/ProofVerifier.tsx:68-77 | with a server naming index 0 the check passes a document that states row 1's head under seq 2 |
| CryptoErasure.EnvelopeRoundTrip | services/cryptod/src/cryptod/app.py:206-251 | the two-level envelope carries the ARN and fingerprint given and opens under the subject's context to the content and vector given, with exactly subject and head as associated data, and under nothing else |
| CryptoErasure.ReadableIffLive | services/cryptod/src/cryptod/envelope.py:45-57 | in every run, from the current tables and any KMS and unwrap steps, a row's key is derivable and its content and vector readable exactly while its subject is live, and then they are what was ingested |
| CryptoErasure.ErasureCutsOnlyItsSubject | services/api/internal/erasure/erasure.go:172-180 | an erase commit makes its own subject's rows unreadable and leaves every other row as readable as before |
| CryptoErasure.KnownIsLive | services/cryptod/src/cryptod/kms.py:47-59 | no sequence of KMS decryptions and unwraps reaches a key outside the envelopes of live subjects |
| CryptoErasure.NextKeepsCrypto | services/api/internal/ingest/ingest.go:169-203 | every step keeps each stored row and key those of one ingest call, at most one for each subject |
| CryptoErasure.StoredRowIsBound | services/api/internal/ingest/ingest.go:136-197 | at every later point of any run the row an ingest call stored is bound to its subject followed by the chain head of the moment it prepared, and while it has its key opens to what that call was given |
| Agent.EvidenceProven | services/api/internal/agent/agent.go:104-120 | true if and only if the last confirm_key_destroyed call shows destroyed and the last chain verdict, if any, is intact |
| Agent.EvidenceByCall | services/api/internal/agent/agent.go:104-120 | call by call: a confirm call or a chain verdict replaces what was shown before, and any other call changes nothing |
| Agent.ConfirmKeyDestroyed | services/api/internal/demo/forensics_tools.go:53-71 | with its reads interleaved by commits, "destroyed" means erased by the last read, and a subject erased before the first read is reported destroyed; an error is reported exactly if one of its reads fails |
| Agent.CountKeysThenRecords | services/mcpserver/src/forensics_mcp/tools.py:74-87 | the same two directions for the MCP tool's two counts |
| Agent.CheckErasureProof | services/api/internal/demo/forensics_tools.go:31-51 | the flag says whether the subject is erased at the read, with the record's own seq, fingerprint and whether a proof is stored, and is absent when the read fails |
| Agent.VerifyHashChain | services/api/internal/demo/forensics_tools.go:19-29 | the flag is the chain verdict at the read, with the count and the seq of the first break, and is absent when the read fails |
| Agent.WithScopeNote | services/api/internal/agent/agent.go:250-261 | whatever subject the model names, no flag of the evidence changes |
| Agent.Dispatch | services/api/internal/agent/agent.go:227-261 | whatever the tables hold and the model asked for, each output reports the tables at its own reads about the audited subject: the chain's verdict, the record, or key row and record; an override is noted exactly when another subject was named |
| Agent.Audit | services/api/internal/agent/agent.go:165-223 | whatever the model replies: the tool calls are, in order, the name and input of every tool use of its tool rounds, each with what its own reads showed; it stops at the first reply without tools or after the round bound, with that reply's text; a proven verdict means erased, and in sound states without a key row, at the last read and ever after; one use of the tool on a subject erased beforehand proves it when no read fails |
| Agent.ProvenMeansLinked | services/api/internal/agent/agent.go:104-120 | in such a trace, with a chain not reported broken, the last chain check that gave a verdict read a log whose rows, by seq, all link |
| Agent.RunsProvide | services/api/internal/demo/forensics_tools.go:53-71 | reads made in order during any run of the protocol meet what the audit requires |
| Agent.ProvenMeansUnreadable | services/api/internal/agent/agent.go:173-223 | after a proven verdict of an audit made during a run, at every later point of the run no ciphertext of the subject can be read, no row key derived and no vector is left |
| Stream.NoLossMeansAll | services/api/internal/stream/hub.go:67-90 | a subscriber that lost nothing has received, in order, all events since it subscribed but those still queued |
| Stream.Channel.Send | services/api/internal/stream/hub.go:67-90 | with the reader draining concurrently the loop ends; the event stands last in the queue, and at most one older event is dropped, none unless the buffer was full; the whole is a sequence of takes and drops ending in one push |
| Stream.Channel.Receive | services/api/internal/httpapi/server.go:455-460 | the reader takes the oldest queued event, keeping the queue a suffix of the events since the subscription |
| Stream.Hub.constructor | services/api/internal/stream/hub.go:33-41 | the caps default to 64 subscribers and 16 events |
| Stream.Hub.Subscribe | services/api/internal/stream/hub.go:45-63 | refused exactly at the cap; otherwise a new id with an empty channel |
| Stream.Hub.Unsubscribe | services/api/internal/stream/hub.go:55-62 | idempotent: removes and closes that channel only |
| Stream.Hub.Publish | services/api/internal/stream/hub.go:67-90 | every subscriber is sent the event, in whatever order the map is walked, each queue staying a suffix of what its subscriber is owed |
| Console.MergeAllSorted | web/src/useDemo.ts:404-414 | merging any events of the log keeps the rows a sorted, duplicate-free part of the log and adds exactly those events |
| Console.WholePartIsLog | web/src/useDemo.ts:404-414 | sorted rows of a gapless log that leave none out are the log |
| Console.DrainedSessionShowsLog | services/api/internal/httpapi/server.go:433-486 | in any interleaving, a session shows a sorted part of the log; drained and without loss it shows exactly the log if and only if every row is in a snapshot that succeeded or was published after the subscription |
| Console.SnapshotShowsLog | services/api/internal/httpapi/server.go:475-486 | in any interleaving a successful snapshot shows exactly the log of that moment |
| Console.FailedSnapshotMisses | services/api/internal/httpapi/server.go:475-486 | after a failed snapshot query a drained, lossless session misses the row published before it subscribed |
| Console.SendIsSessionEvents | services/api/internal/stream/hub.go:67-90 | whatever one send does to a channel, with the takes and drops in between, is a sequence of session events with the same channel as result |
| Jobs.LiveInversion.Start | services/api/internal/demo/demo.go:811-846 | malformed input is refused, the running embedding coalesces, another is busy, else one new worker runs |
| Jobs.LiveInversion.Complete | services/api/internal/demo/demo.go:826-844 | a completion only ever overwrites its own running job |
| Jobs.LiveInversion.Status | services/api/internal/demo/demo.go:851-859 | a poll with an id that returns done carries the inversion of the embedding that id was started with |
| Jobs.StartMeans | services/api/internal/demo/demo.go:811-825 | refused as malformed or, exactly while another embedding runs, as busy; an accepted caller holds the id of a running job for its own embedding; only a new job changes anything |
| Jobs.PollTellsFate | services/api/internal/demo/demo.go:811-859 | in any interleaving a poll with a started id answers "superseded" if and only if a later start was accepted, and otherwise the current job: running until its worker ends, then done with the payload computed from its own embedding, or failed after any other end |
| Jobs.Attribution | services/api/internal/demo/demo.go:811-859 | in any interleaving: exactly one worker while running and none otherwise; a poller sees its own job or "superseded", which is final |
| Budget.PruneInPlace | services/api/internal/demo/demo.go:352-357 | filtering into the front of the same array gives the timestamps after the cutoff, in order |
| Budget.RecentIsHour | services/api/internal/demo/demo.go:344-357 | the timestamps kept are those of the half-open hour ending now: a call exactly an hour old no longer counts |
| Budget.RollingBudget.Allow | services/api/internal/demo/demo.go:344-388 | refused exactly when cap accepted calls lie in the hour before the first clock reading; the pruned list is that hour of the full history; any cap + 1 accepted calls span an hour |
| Budget.AtMostCapPerHour | services/api/internal/demo/demo.go:344-388 | every half-open hour holds at most cap accepted calls |

The specification functions these members speak of (`Root`, `InclusionProof`, `Subproof`, `Accepts`, `ToRaw`,
`CanonicalRow`, `Link`, `EraseTxn`, `IngestTxn`, `Prepare`, `Next`, `InclusionAt`, `ConsistencyAt`, `MergeRow`, ...)
transcribe the source; what they compute is stated without them by members such as `Merkle.RootByLevels`,
`Ledger.RowsSayWhatWasAsked`, `Ledger.EraseReachesProof`, `Der.DerReadsValues` and `Jobs.PollTellsFate`.

## Left out

- Merkle.LargestPowerOfTwoLessThan: Go's 64-bit `int` is exact up to 2^62 leaves; larger trees are not claimed.
- Browser.VerifyConsistency32: sizes are exact integers; JavaScript numbers are so up to 2^53, and a server's fraction or
  NaN is not modelled.
- Erasure.EraseOutcome: takes the subject id in its canonical spelling. Ingest canonicalises it
  (`services/api/internal/ingest/ingest.go:322-340`), Erase hashes it as given, and the UUID column accepts either.
- CryptoErasure.ReadableIffLive: is about the current committed tables; MVCC history, `AS OF SYSTEM TIME` reads and backups
  are not modelled, nor is key material still in a caller's memory.
- Console.DrainedSessionShowsLog: which rows the changefeed publishes is a premise; the feed starts without an initial
  scan, so rows committed while it reconnects are not published.
- Agent.Audit: the transcript sent to the model is represented by the evidence so far, and its replies are arbitrary.
- Stream.Hub.Publish: the mutex makes each call one step; readers of the channel being sent to may take events during it.
- Protocol.ProofsTellTheTruth: assumes that the signer signs and returns the document it was sent
  (`services/cryptod/src/cryptod/app.py:265-307`); its reply may otherwise be missing or incomplete.
- Runs.AnchorKeeps: the shred of imported key material is represented by its outcome, an arbitrary key state or a
  deferral.
- Hex.FromHexRoundTrip: `toLowerCase` is modelled on ASCII text only.
- `canonicalUUID`, `newUUIDv4`, `validatePrepared`, `decodePrepared` and `vectorLiteral`: checks and conversions of one input
  each; they would only add easy members.
- AES-GCM, RFC 3394, ECDSA signing and verification, KMS and S3 object lock: symbolic terms or the signer's reply.
- JSON canonicalisation and base64: given inverse pairs; a proof body is its document.
- Real clocks and UUIDs: parameters; fresh ids are required not to have been handed out before.
- The time-travel beat, similarity search, roles and row-level security, the read-only SQL guard, the model and GPU
  clients, the changefeed's reconnect backoff, the mock client and the React pages.
