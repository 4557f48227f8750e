# Verification model of the governance platform

A Dafny model of the platform's shared database state and of the code that reads and changes
it, at the level of single SQL statements and transaction steps, with proofs of what the
platform promises about it. `dafny verify dfyconfig.toml` checks all of it.

| module | what it models |
|---|---|
| `Wrappers`, `Ordering`, `Paging` | optional values, sorting, ORDER BY with ties, LIMIT and OFFSET |
| `JsonText`, `JsonExamples` | `json.dumps`, `json.loads` and canonical JSON, character by character; which texts these are |
| `HashChain` | the hash chain and its independent verifier |
| `Encryption` | field encryption with the `gpenc1:` marker |
| `EvidenceLedger` | append transactions interleaving under the advisory lock, and the numbers they draw |
| `LedgerContents` | what the ledger's tables hold, said of the committed requests |
| `LedgerReadBack` | decrypting, parsing and verifying a stored table, untouched or not |
| `EvidenceStore` | the store's own append, with the review queued after it |
| `Reviews`, `ReviewRepository`, `Reconciliation` | the human review protocol, its repository, and the tools racing it; verdict reviews and population finding reviews are two tables of this one shape |
| `AppendToReview` | appends and the writers of reviews on one database, from the policies to the review of their verdict |
| `PluginRegistry`, `PluginConcurrency`, `ReleaseOrder`, `RegistryLookup` | plugin lifecycle and seeding, serially and in concurrent transactions; text order against release order; finding the PRODUCTION version |
| `Governance`, `Ingestion` | the verdict of one event, and the ingestion request around it |
| `PopulationWindow`, `AdverseImpact`, `MetricKeys` | the windowed counts, the four-fifths test, and the keys it reports ratios under |
| `Bindings`, `PopulationAttempt`, `PopulationBatch` | policy bindings, what one of them comes to, and the batch run over them |
| `PopulationFindings` | signing, storing, reading back and verifying findings |
| `VerdictQueries` | reading one verdict, and many in two queries |

## How it is modelled

- **Cryptography** is a set of functions with laws. SHA-256 (section 6.2 of FIPS 180-4) is any
  function to 64 characters; nothing is assumed about collisions, and the tamper-evidence theorem
  hands over the colliding texts instead. Ed25519 (section 5.1 of RFC 8032) is a pair with
  sign-then-check correctness; a signature or key that cannot be decoded makes the check raise.
  Fernet is a pair of functions with three laws, shown consistent by `Encryption.LawsConsistent`.
- **The database** executes each statement atomically, at READ COMMITTED. An advisory lock is held
  to the end of its transaction; a partial unique index makes the offending statement fail. A
  sequence number once drawn is never returned, so numbers grow strictly but may have gaps.
- **Clocks, uuids and failures** are parameters: a call that may fail in the source takes a flag or
  a function that says whether it does. A uuid is required to be fresh.
- **JSON numbers** are the literals they print as; **approval rates** are exact rationals; **instants**
  are integers with a printing function.
- **ORDER BY** answers are any arrangement the order allows, so every result about a listing holds
  however the database breaks ties. Text in the verdict query is ordered by the database's collation,
  a parameter; elsewhere by code point, as Python sorts.

## What the proofs found out about the code

- `infra/migrations/0007_create_evidence_chain.sql:6` calls the ledger's numbering strictly
  gapless. A rolled-back insert uses a number up, and over any interleaving the numbers drawn are
  those committed, the one pending, and one for each such rollback
  (`EvidenceLedger.NumbersConserved`). The committed numbers are 1, 2, 3 and so on if and only if no
  append that had drawn its number was rolled back before another one committed
  (`EvidenceLedger.GaplessExactly`); three appends of which the second fails leave 1 and 3
  (`EvidenceStore.ThreeAppendsLeaveAGap`, at three requests `EvidenceStore.SomeLedgerHasAGap`).
- `verify_chain_from_database` catches a failure to decrypt and nothing else
  (`src/gov_platform/audit/verify_chain.py:117-132`), so that not every tampered row is reported. It
  raises, naming no record, exactly when the first row it cannot read does decrypt but is not a JSON
  object, or when all rows can be read and the first one at fault has a malformed signature
  (`LedgerReadBack.RaisesExactly`). Overwriting one payload with `x` or `[]` does it
  (`LedgerReadBack.OverwrittenPayloadRaises`), and so does one malformed signature
  (`HashChain.AlteredSignature`).
- A chain whose last records are removed still verifies (`HashChain.ChainPrefix`), and the columns
  beside the chain are not covered by it (`HashChain.UncoveredColumns`).
- Exactly one PRODUCTION version per plugin is a fact about serial runs. Over every interleaving a
  family loses its PRODUCTION version at one kind of step, and there always: the commit of a
  transaction that has flushed a promotion to SHADOW over a row in PRODUCTION and promoted no row of
  the family to PRODUCTION since (`PluginConcurrency.ProductionLostExactly`). Three promotions of one
  DRAFT row can do it (`PluginConcurrency.StalePromotionLosesProduction`); a stale flush over a row in
  SHADOW is harmless.
- Seeding ends on the greatest version in string order: `0.9.0` wins over `0.10.0`
  (`PluginRegistry.TenSortsBeforeNine`). It leaves the newest release in PRODUCTION if and only if the
  family's every version, but for the greatest as text, has a greater one that is no older release
  (`PluginRegistry.NewestSeededExactly`), as when the versions have the same number of digits in every
  place (`PluginRegistry.SameShapesSeedNewest`).
- `src/gov_platform/api/ingestion/routes.py:230-233` says a shadow policy's failure never surfaces.
  That holds of its evaluation only: constructing it (line 221) and storing its finding (lines
  239-243) are outside the `try`, so their failures answer the request with an error after the
  evidence has been committed (`Ingestion.Api.Handle`, and `Ingestion.BrokenShadowSurfaces` for a
  constructor that raises). The ledger itself comes out as if there were no shadows at all
  (`Ingestion.LedgerAsWithoutShadows`).
- An append that commits can still raise, because the row is read again after the commit
  (`src/gov_platform/audit/evidence_store.py:232`). The evidence is there, the request is answered
  with an error, and no review is attempted: a committed append attempts one if and only if its
  verdict is reviewable and that read succeeds (`EvidenceStore.EvidenceStore.Append`,
  `Ingestion.ReviewAttempted`, and `Ingestion.LostRefreshLosesTheReview` for one request).
- `get_by_identity` raises once a second binding of a pair has ever been created, and with it the
  seeding tool (`Bindings.LookupRaises`, `Bindings.RecreatedPairBreaksLookup`).
- A reconciliation run leaves a verdict it has visited with exactly one active review if and only if
  neither its visit raised while there was none, nor its review was resolved behind the visit, with
  no writer inserting one since (`Reconciliation.ReconciliationExactly`); a resolve ahead of the visit
  does no harm. One verdict and one reviewer are enough to lose it
  (`Reconciliation.ResolvedBehindTheRun`).
- The reconciliation counts a review as created before it commits
  (`src/gov_platform/human_review/backfill_reviews.py:98-100`). `created` is the number of reviews
  inserted if and only if no session lost an insert at its commit
  (`Reconciliation.CreatedIsGrowthExactly`); one that did is counted as created and as errored
  (`Reconciliation.CountedTwice`).
- The comment in `src/gov_platform/db/repositories/verdict.py:45-49` promises that findings are read
  in the order they were written even at equal timestamps. They are exactly when the policies ran in
  ascending order of their ids there, ascending in the database's collation
  (`VerdictQueries.ReadOrderIsWriteOrder`); two policies that ran the other way round within one tick
  come back swapped (`VerdictQueries.ReadBackSwapped`).
- Two metrics of one evaluation share a key when attribute names and values contain colons that make
  them collide; the ratio of the later attribute in ascending order is kept. Every ratio is recorded
  if and only if colliding ones are equal (`MetricKeys.RecordedExactly`), which they are when no
  DIRECT attribute's name contains a colon (`MetricKeys.ColonFreeRecorded`). Attributes `a` and `a:b`
  with values `b:c` and `c` lose one (`MetricKeys.CollisionLosesARatio`). The outcome and the
  rationale are not affected.

## Model

| member | source | states |
|---|---|---|
| `Ordering.SortedArrangementUnique` | src/gov_platform/db/repositories/verdict_review.py:152-166 | rows an ORDER BY tells apart have one sorted arrangement |
| `Ordering.SortSorted` | src/gov_platform/population_engine/policies/adverse_impact_ratio.py:114 | sorting sorts, under any order without ties |
| `JsonText.LoadsDumps` | src/gov_platform/audit/evidence_store.py:320 | every tree Python can hold is parsed back exactly from the text it prints as |
| `JsonText.LoadsValid` | src/gov_platform/audit/evidence_store.py:320 | whatever text is parsed, the tree it gives is one Python can hold: numbers are numerals and no object repeats a key |
| `JsonText.CanonIdempotent` | src/gov_platform/audit/hash_chain.py:18-20 | the canonical form of a canonical form is itself |
| `JsonExamples.CanonicalKeysAscend` | src/gov_platform/audit/hash_chain.py:18-20 | canonical members ascend by key in code point order, and are those of the object, each with its own canonical value |
| `JsonText.CanonicalFixpoint` | src/gov_platform/audit/hash_chain.py:18-20 | print, parse, print is print: a canonical text parses to the canonical form, which prints as the same text |
| `JsonText.CanonicalInjective` | src/gov_platform/audit/hash_chain.py:18-20 | two payloads have one canonical text if and only if they are equal up to key order |
| `JsonExamples.LoadsPadded` | src/gov_platform/audit/evidence_store.py:320 | blanks before and after a value do not matter to the parser |
| `JsonExamples.LastMemberCounts` | src/gov_platform/audit/evidence_store.py:320 | of an object that repeats a key, the last member under each is kept and no other |
| `JsonExamples.PrintedObject` | src/gov_platform/audit/hash_chain.py:18-20 | the separators, at one object |
| `HashChain.PreimageInjective` | src/gov_platform/audit/hash_chain.py:23-25 | the hashed text determines the previous hash and the payload text |
| `HashChain.VerifyChain` | src/gov_platform/audit/verify_chain.py:52-105 | valid exactly on acceptable chains; a rejection counts the longest acceptable prefix and names the next record and its first fault, unless that is a malformed signature, on which it raises |
| `HashChain.IntactExactly` | src/gov_platform/audit/verify_chain.py:62-105 | the answer is intact if and only if every record names its predecessor, carries the digest of its own text, and has its signature answered as matching where there is a key and a signature |
| `HashChain.AlteredRecord` | src/gov_platform/audit/verify_chain.py:64-102 | one record of an acceptable chain replaced by any other: the first of broken link, wrong hash and mismatching signature is reported, of that record |
| `HashChain.AlteredSignature` | src/gov_platform/audit/verify_chain.py:88-102 | on a chain accepted with a key, one signature replaced: a mismatching one is reported as that record's fault, a malformed one makes the verifier raise |
| `HashChain.TamperEvidence` | src/gov_platform/audit/verify_chain.py:62-105 | two chains that verify and end in one record hash have the same length and payloads, or exhibit a collision or a preimage of the genesis value |
| `HashChain.ChainPrefix` | src/gov_platform/audit/verify_chain.py:62-105 | every prefix of an acceptable chain is acceptable |
| `HashChain.UncoveredColumns` | src/gov_platform/audit/verify_chain.py:62-105 | changing event id, verdict id, sequence number or timestamp columns does not change the verdict on a chain |
| `Encryption.LawsConsistent` | src/gov_platform/audit/encryption.py:82-119 | some cipher obeys the assumed laws |
| `Encryption.SealedField` | src/gov_platform/audit/encryption.py:154-166 | a sealed field is marked, opens under its own key and under no other reader |
| `Encryption.NotesRoundTrip` | src/gov_platform/db/repositories/verdict_review.py:273-294 | free text reads back unchanged if and only if it was encrypted or does not start with the marker |
| `Encryption.NotesUnreadable` | src/gov_platform/db/repositories/verdict_review.py:273-294 | under another key or none the stored notes, marker and ciphertext, show as the placeholder |
| `Encryption.ReadBy` | src/gov_platform/audit/encryption.py:95-169 | an unmarked value is returned as it is; a marked one is never opened without a key, nor if it is not ASCII |
| `Encryption.ObjectTextUnmarked` | src/gov_platform/audit/encryption.py:146-151 | canonical JSON of an object is never taken for ciphertext |
| `EvidenceLedger.StepInv` | src/gov_platform/audit/evidence_store.py:188-232 | every statement of every append keeps the ledger invariant |
| `EvidenceLedger.InterleavingInv` | src/gov_platform/audit/evidence_store.py:188-232 | in every interleaving of appends, committed or rolled back anywhere, the committed rows are one unbroken chain in sequence order |
| `LedgerContents.RowsExactly` | src/gov_platform/audit/evidence_store.py:181-232 | in every interleaving each row is its request's, column by column: linked to the row before it, hashed over the plain text, signed over the hash, sealed where its writer seals |
| `LedgerContents.TablesExactly` | src/gov_platform/audit/evidence_store.py:195-209 | in every interleaving an id is in the table of events, findings, verdicts or resolutions if and only if a committed request brought it, verdicts with their status; no two requests share a key and no two rows a record hash |
| `EvidenceLedger.OrderedIsCommitOrder` | src/gov_platform/audit/evidence_store.py:291-295 | sequence order is commit order, and the tail read finds the last committed row |
| `EvidenceLedger.NumbersConserved` | src/gov_platform/audit/evidence_store.py:188-232 | over any interleaving, the numbers drawn are those committed, the one pending and one for each rollback of an inserted row |
| `EvidenceLedger.GaplessExactly` | infra/migrations/0007_create_evidence_chain.sql:1-6 | the committed numbers run 1, 2, 3 without a gap if and only if no append that had drawn its number was rolled back before another one committed |
| `LedgerReadBack.ReadBack` | src/gov_platform/audit/evidence_store.py:297-326 | rows of any mix of writers the reader can decrypt read back record by record as committed |
| `LedgerReadBack.ReadColumns` | src/gov_platform/audit/evidence_store.py:297-326 | what is read of a row is what is stored, column by column, the payload decrypted and parsed |
| `LedgerReadBack.ReadStops` | src/gov_platform/audit/evidence_store.py:309-315 | the first row the reader cannot decrypt is the one named |
| `LedgerReadBack.ReadBackVerifies` | src/gov_platform/audit/verify_chain.py:62-105 | what is read back verifies, signatures included, and holds the payloads written |
| `LedgerReadBack.ReachableReads` | src/gov_platform/audit/verify_chain.py:108-132 | all of this for the ledger any interleaving has produced, in every case of keys |
| `LedgerReadBack.All` | src/gov_platform/audit/evidence_store.py:282-326 | all records in sequence order, or the failure of the first row that cannot be read: a failed decryption, which names it, or a text that is no JSON object, which names none |
| `LedgerReadBack.VerifyChainFromDatabase` | src/gov_platform/audit/verify_chain.py:108-132 | over any table, tampered with or not: a failed decryption is reported, another failure to read raises, and records read are judged as `verify_chain` judges them |
| `LedgerReadBack.RaisesExactly` | src/gov_platform/audit/verify_chain.py:108-132 | raises exactly when the first row it cannot read decrypts to something else than a JSON object, or all can be read and the first at fault has a malformed signature; reports a row exactly when it is the first that cannot be read and does not decrypt |
| `LedgerReadBack.OverwrittenPayloadRaises` | src/gov_platform/audit/evidence_store.py:316-320 | any payload of a readable ledger overwritten with `x` or `[]` makes the tool raise |
| `LedgerReadBack.HonestLedgerVerifies` | src/gov_platform/audit/verify_chain.py:108-132 | a ledger any interleaving has produced is called valid if and only if every committed row is readable; else its first unreadable row is reported |
| `LedgerReadBack.TamperedTable` | src/gov_platform/audit/verify_chain.py:52-132 | whatever is done to the stored rows, if the tool calls the table valid and it ends in the hash the ledger ended in, it holds exactly the payloads appended, or the digest is broken |
| `EvidenceStore.RunAlone` | src/gov_platform/audit/evidence_store.py:178-248 | one append with nobody else: all its rows or none, and a number used up by a late failure |
| `EvidenceStore.AppendAddsAll` | src/gov_platform/audit/evidence_store.py:178-232 | it commits exactly when its commit does not fail, no key is taken, attributes resolve and the hash is new; then its row, event, every finding, verdict and every resolution are there |
| `EvidenceStore.EvidenceStore.Append` | src/gov_platform/audit/evidence_store.py:178-275 | the method leaves what the protocol leaves with one transaction in it and keeps its invariant; a committed append attempts a review if and only if the verdict is reviewable and the row can be read again, and the result says which of these happened |
| `EvidenceStore.QueuedIsActive` | src/gov_platform/audit/evidence_store.py:250-275 | after the queue step a reviewable verdict has an active review unless the step failed, and no other verdict's reviews are touched |
| `EvidenceStore.ThreeAppendsLeaveAGap` | infra/migrations/0007_create_evidence_chain.sql:1-6 | any three appends without shared keys, whose texts the digest tells apart and of which the second fails at its commit, leave the numbers 1 and 3 |
| `EvidenceStore.SomeLedgerHasAGap` | infra/migrations/0007_create_evidence_chain.sql:1-6 | under a lawful suite, three requests that do |
| `Reviews.ApplyInv` | src/gov_platform/db/repositories/verdict_review.py:70-258 | every statement keeps one active review per verdict, and fields that match the status |
| `Reviews.RunInv` | src/gov_platform/db/repositories/verdict_review.py:168-258 | over all runs the table, the log of successful calls and the principals agree: claims less releases is 1 exactly when a row is held or resolved; reviewer and time of claim are those of its latest unreleased claim, resolution, notes and time those its closer gave |
| `Reviews.RowsAsAsked` | src/gov_platform/db/repositories/verdict_review.py:70-258 | over all runs a row's subject and creation time are those of a create of it, its time of claim that of a claim of it, and its resolution, notes and time together those of one call to resolve it |
| `Reviews.ResolvedForever` | src/gov_platform/db/repositories/verdict_review.py:215-258 | a RESOLVED row never changes |
| `Reviews.ResolveReviewer` | src/gov_platform/api/admin/_shared.py:20-43 | the authenticated name when there is one; a disagreeing name is refused, never replaced |
| `Reviews.ResolvedByItsReviewer` | src/gov_platform/api/admin/verdict_reviews.py:164-246 | with authentication on, the reviewer of a RESOLVED row claimed it last, with no release since, and resolved it as the row says, signed in under that name both times |
| `Reviews.OneClaimWins` | src/gov_platform/db/repositories/verdict_review.py:168-213 | of any number of claims between two releases exactly one succeeds |
| `ReviewRepository.ReviewRepository.Create` | src/gov_platform/db/repositories/verdict_review.py:70-117 | inserts unless an active review exists, never an error; afterwards one is active |
| `ReviewRepository.ReviewRepository.Claim` | src/gov_platform/db/repositories/verdict_review.py:168-192 | succeeds exactly on OPEN rows |
| `ReviewRepository.ReviewRepository.Release` | src/gov_platform/db/repositories/verdict_review.py:194-213 | succeeds exactly on rows in review |
| `ReviewRepository.ReviewRepository.Resolve` | src/gov_platform/db/repositories/verdict_review.py:215-258 | succeeds exactly for the current claimer and stores the resolution and time given; the notes come back as given, with encryption off exactly when unmarked |
| `ReviewRepository.ReviewRepository.ListAll` | src/gov_platform/db/repositories/verdict_review.py:123-166 | the page of the one listing filters and order allow, notes decrypted |
| `ReviewRepository.ListingHasNoTies` | src/gov_platform/db/repositories/verdict_review.py:152-166 | creation time and id order reviews strictly |
| `ReviewRepository.ListedExactly` | src/gov_platform/db/repositories/verdict_review.py:123-166 | a listing holds exactly the reviews the given filters leave, oldest first, those of one instant by ascending id |
| `ReviewRepository.ReviewPagesAreExact` | src/gov_platform/db/repositories/population_finding_review.py:91-113 | pages of any size, each from a query of its own, join to the whole listing, each row once |
| `Paging.PagesAreExact` | src/gov_platform/db/repositories/verdict_review.py:152-166 | the same for any listing without ties |
| `Paging.PageExactly` | src/gov_platform/db/repositories/verdict_review.py:157-166 | a page is the rows from the offset on, as many as the limit allows |
| `Paging.TiesBreakPaging` | src/gov_platform/db/repositories/population_finding.py:126-131 | with a tie, a walk can show one row twice and another never |
| `Reconciliation.StepInv` | src/gov_platform/human_review/backfill_reviews.py:76-108 | appends, queue steps, reviewers and reconciliation runs keep the table and every run's progress consistent |
| `Reconciliation.ReconciliationExactly` | src/gov_platform/human_review/backfill_reviews.py:76-108 | whatever interleaves, a visited verdict of the snapshot has exactly one active review if and only if neither its visit raised while there was none nor its review was resolved behind the visit, with no insert since |
| `Reconciliation.ReconciliationCovers` | src/gov_platform/human_review/backfill_reviews.py:76-108 | in particular a finished run that met neither leaves every verdict of its snapshot with exactly one active review |
| `Reconciliation.CoveredStaysCovered` | src/gov_platform/db/repositories/verdict_review.py:70-117 | verdicts under active review stay so while none of their reviews is resolved, and no writer or run, however they interleave, creates one for them |
| `Reconciliation.SecondRunCreatesNone` | src/gov_platform/human_review/backfill_reviews.py:76-143 | after a finished run that lost nothing, another run beside live traffic creates none for its verdicts, and none at all if it found no newer ones |
| `Reconciliation.CountedExactly` | src/gov_platform/human_review/backfill_reviews.py:93-108 | whatever interleaves, a run counts a verdict as errored if and only if its visit raised, and as created if and only if its upsert inserted a review, lost at the commit or not |
| `Reconciliation.RaceHasOneWinner` | src/gov_platform/audit/evidence_store.py:250-275 | of any number of writers racing over one verdict, whatever else happens short of a resolve, exactly one inserts if it had no active review and none if it had, and no writer fails |
| `Reconciliation.ResolvedBehindTheRun` | src/gov_platform/human_review/backfill_reviews.py:95-108 | an error-free finished run of one verdict that leaves it without an active review |
| `Reconciliation.AfterVisits` | src/gov_platform/human_review/backfill_reviews.py:95-108 | the loop keeps every row it found and acts on each id separately |
| `Reconciliation.Reconcile` | src/gov_platform/human_review/backfill_reviews.py:76-143 | the table gains one review for each id that lacked one and did not raise; `created` counts these and the inserts lost at their commit, `errored` every id that raised |
| `Reconciliation.CreatedIsGrowthExactly` | src/gov_platform/human_review/backfill_reviews.py:76-143 | `created` is what the table has grown by if and only if no session lost an insert at its commit |
| `Reconciliation.CountIsSize` | src/gov_platform/human_review/backfill_reviews.py:93-108 | each counter is the number of the ids it counts |
| `Reconciliation.CountedTwice` | src/gov_platform/human_review/backfill_reviews.py:95-108 | one id counted as created and as errored, with no review there |
| `Reconciliation.ReconciledOnce` | src/gov_platform/human_review/backfill_reviews.py:76-143 | the tool undisturbed: after an error-free run each id has exactly one active review, and another run changes nothing |
| `Reconciliation.ResolvedIsReopened` | src/gov_platform/db/repositories/verdict_review.py:70-105 | a verdict whose reviews are all RESOLVED gets a fresh OPEN one, the old rows unchanged |
| `PluginRegistry.OneStageForward` | src/gov_platform/db/repositories/plugin_registration.py:37-40 | a registration is in DRAFT; promotion takes DRAFT to SHADOW and nothing else with it, SHADOW to PRODUCTION and the family's PRODUCTION row to SHADOW; anything else is refused |
| `PluginRegistry.NoStageSkipped` | src/gov_platform/db/repositories/plugin_registration.py:115-172 | over serial runs a row in PRODUCTION was registered in DRAFT and later stood in SHADOW |
| `PluginRegistry.SerialRuns` | src/gov_platform/db/repositories/plugin_registration.py:115-172 | over serial runs a plugin that once has a PRODUCTION version has exactly one ever after, and no row returns to DRAFT |
| `PluginRegistry.SeedAllTargets` | src/gov_platform/plugins/seed_registry.py:207-238 | seeding any keys from any registry ends with the last key of each family in PRODUCTION and its other seeded versions in SHADOW |
| `PluginRegistry.SeedingIdempotent` | src/gov_platform/plugins/seed_registry.py:77-108 | seeding again leaves every lifecycle state as it is |
| `PluginRegistry.LastIsGreatest` | src/gov_platform/plugins/seed_registry.py:207-238 | in sorted keys the last of a family is its greatest version in string order |
| `PluginRegistry.TenSortsBeforeNine` | src/gov_platform/plugins/seed_registry.py:207-216 | seeding 0.10.0 and 0.9.0 leaves the older release in PRODUCTION and the newer in SHADOW |
| `PluginRegistry.NewestSeededExactly` | src/gov_platform/plugins/seed_registry.py:207-238 | the version seeding leaves in PRODUCTION is the newest release if and only if every version of the family, but for the greatest as text, has a greater one that is no older |
| `PluginRegistry.SameShapesSeedNewest` | src/gov_platform/plugins/seed_registry.py:207-238 | it is the newest release when versions have the same number of digits in every place |
| `ReleaseOrder.SameShapeAgrees` | src/gov_platform/plugins/seed_registry.py:207-216 | between such versions text order is release order, both ways |
| `PluginRegistry.PluginRegistrationRepository.Promote` | src/gov_platform/db/repositories/plugin_registration.py:115-172 | DRAFT to SHADOW, SHADOW to PRODUCTION, the index holding at each flush so that neither flush fails |
| `PluginRegistry.PluginRegistrationRepository.SeedToProduction` | src/gov_platform/plugins/seed_registry.py:77-108 | terminates with the key in PRODUCTION and the previous PRODUCTION version in SHADOW |
| `PluginRegistry.PluginRegistrationRepository.Seed` | src/gov_platform/plugins/seed_registry.py:207-238 | the passes of `main` do to the registry what `SeedAllTargets` describes |
| `PluginConcurrency.NextInv` | src/gov_platform/db/repositories/plugin_registration.py:115-172 | every flush, commit and rollback of concurrent promotions keeps the index's invariant |
| `PluginConcurrency.AtMostOneProduction` | src/gov_platform/db/repositories/plugin_registration.py:120-172 | under any interleaving, at every flush and commit, each plugin has at most one PRODUCTION version, and no committed row returns to DRAFT |
| `PluginConcurrency.CommitLosesExactly` | src/gov_platform/db/repositories/plugin_registration.py:120-172 | a commit takes a family's PRODUCTION version away if and only if its transaction flushed a row of it late and promoted none to PRODUCTION since |
| `PluginConcurrency.ProductionLostExactly` | src/gov_platform/db/repositories/plugin_registration.py:120-172 | over every interleaving, a step takes a family's PRODUCTION version away if and only if it is such a commit |
| `PluginConcurrency.ProductionSurvives` | src/gov_platform/db/repositories/plugin_registration.py:120-172 | in particular, if no promotion to SHADOW is flushed over a row in PRODUCTION, a PRODUCTION version once committed is there at every later commit |
| `PluginConcurrency.StalePromotionLosesProduction` | src/gov_platform/db/repositories/plugin_registration.py:120-172 | an interleaving of three promotions of one DRAFT row that does so |
| `AppendToReview.RunRefines` | src/gov_platform/audit/evidence_store.py:178-275 | any interleaving of appends and writers of reviews is a run of the ledger and a run of the reviews in which each commit of an append commits its verdict |
| `AppendToReview.RunInv` | src/gov_platform/schemas/human_review.py:129-131 | in every interleaving the verdict table holds the verdicts of the committed evidence and no others, and only reviewable ones are reviewed |
| `AppendToReview.EvidenceIsReviewed` | src/gov_platform/human_review/backfill_reviews.py:76-108 | evidence once committed stays where it is; when a reconciliation started after the commit of a reviewable verdict is finished, the verdict has exactly one active review if and only if it has not been lost |
| `AppendToReview.FlaggedIsReviewed` | src/gov_platform/audit/evidence_store.py:250-275 | and so exactly one if a MEDIUM or HIGH binding flagged the event, and no review at all if none did |
| `Governance.StatusIsMostRestrictive` | src/gov_platform/governance_engine/engine.py:80-99 | the status is the most restrictive one a flagged binding's severity calls for |
| `Governance.OrderIrrelevant` | src/gov_platform/governance_engine/engine.py:80-99 | the status does not depend on binding order |
| `Governance.AddingNeverRelaxes` | src/gov_platform/governance_engine/engine.py:80-99 | adding bindings never relaxes it |
| `Governance.ReviewableExactly` | src/gov_platform/schemas/human_review.py:129-131 | a verdict's status is one of the reviewable ones exactly when a MEDIUM or HIGH binding flags |
| `Ingestion.AcceptedExactly` | src/gov_platform/api/ingestion/routes.py:138-213 | over the registry and the binding table, evidence is appended if and only if the adapter is past DRAFT, the payload translates, there is an ACTIVE binding, every ACTIVE binding's policy has a PRODUCTION version deployed here that evaluates the event, and the append succeeds |
| `Ingestion.FindingsMatchBindings` | src/gov_platform/api/ingestion/routes.py:162-213 | and then findings match the ACTIVE bindings one to one in creation order, no policy twice, each from the one PRODUCTION version of its policy |
| `Ingestion.RefusedExactly` | src/gov_platform/api/ingestion/routes.py:138-171 | which refusal a request gets before any policy is looked up, and when the append is all that fails |
| `Ingestion.StopsFor` | src/gov_platform/api/ingestion/routes.py:173-201 | resolution stops at the first binding without a PRODUCTION version, without its code, or whose policy cannot be constructed, and says which |
| `Ingestion.ReviewAttempted` | src/gov_platform/audit/evidence_store.py:224-270 | a review of the appended verdict is attempted exactly when a MEDIUM or HIGH binding flags and the append does not raise after its commit |
| `Ingestion.LostRefreshLosesTheReview` | src/gov_platform/audit/evidence_store.py:224-237 | a request whose append raises after its commit: evidence of a verdict to be reviewed, an error for an answer, no review attempted |
| `RegistryLookup.UniqueProductionFound` | src/gov_platform/api/ingestion/routes.py:177-184 | over a registry with one PRODUCTION version per family at most, the lookup finds one exactly when there is one, and it is that one, in whatever order rows come |
| `Ingestion.ShadowsDoNotInterfere` | src/gov_platform/api/ingestion/routes.py:162-213 | two requests whose registrations differ in SHADOW rows alone, with any code behind those, get the same verdict, ledger row and review attempt |
| `Ingestion.AsWithoutShadows` | src/gov_platform/api/ingestion/routes.py:162-213 | the verdict is the one given with every SHADOW row removed |
| `Ingestion.LedgerAsWithoutShadows` | src/gov_platform/api/ingestion/routes.py:127-251 | over any sequence of requests, the ledger is the one had there been no shadows |
| `Ingestion.BrokenShadowSurfaces` | src/gov_platform/api/ingestion/routes.py:215-243 | a shadow whose constructor raises: the evidence is appended and the request answered with an error |
| `Ingestion.Api.ResolvePolicies` | src/gov_platform/api/ingestion/routes.py:162-209 | one governing policy per binding in order, or the first failure |
| `Ingestion.Api.RunShadows` | src/gov_platform/api/ingestion/routes.py:215-243 | stores the shadow findings up to the first failure outside the containment |
| `Ingestion.ShadowRowsExactly` | src/gov_platform/api/ingestion/routes.py:215-243 | stored are, under their own registration ids, the findings of exactly the deployed shadows that evaluate and can be stored, before the first that escapes |
| `Ingestion.Api.Handle` | src/gov_platform/api/ingestion/routes.py:127-251 | the ledger grows by exactly the governed verdict or not at all, and a review is attempted exactly for a reviewable one whose append does not raise after its commit; the answer is that verdict unless the append raises or a shadow fails outside its containment |
| `Ingestion.AnsweredExactly` | src/gov_platform/api/ingestion/routes.py:127-251 | the caller is given the verdict if and only if it was appended, the append did not raise after its commit and no SHADOW version of a bound policy escapes its containment |
| `PopulationWindow.BuildGroupCounts` | src/gov_platform/population_engine/window.py:72-130 | whatever events the queries answer over, the window carries the exact counts of every DIRECT attribute and nothing else |
| `PopulationWindow.GroupBy` | src/gov_platform/population_engine/window.py:52-69 | every list of events has an answer to the aggregate query: exact counts, each occurring value once |
| `PopulationWindow.TotalCounts` | src/gov_platform/population_engine/window.py:52-69 | a total is the number of the events of the system's model versions in the half-open window that give the attribute this value |
| `PopulationWindow.ApprovedCounts` | src/gov_platform/population_engine/window.py:57-60 | and a favorable count that of those of them that say `approved` as the JSON true or as the string of that word |
| `AdverseImpact.ResolveParameters` | src/gov_platform/population_engine/policies/adverse_impact_ratio.py:60-92 | a finite threshold in (0, 1] is used, else four fifths; a finite size of at least 1 is used, rounded down and never below 2, else 30; an override out of range, NaN and infinities included, is noted |
| `AdverseImpact.OverrideDecides` | src/gov_platform/population_engine/policies/adverse_impact_ratio.py:68-74 | two groups that are flagged under an override of nine tenths and not without it |
| `AdverseImpact.GroupByAttribute` | src/gov_platform/population_engine/policies/_shared.py:21-30 | each attribute's groups in their order |
| `AdverseImpact.AgainstTheHighest` | src/gov_platform/population_engine/policies/adverse_impact_ratio.py:123-140 | comparing with the highest rate finds a disparity between some two values exactly when there is one |
| `AdverseImpact.ComparisonUnique` | src/gov_platform/population_engine/policies/adverse_impact_ratio.py:115-136 | an attribute has one comparison |
| `AdverseImpact.Evaluate` | src/gov_platform/population_engine/policies/adverse_impact_ratio.py:105-175 | flags exactly when some attribute shows a disparity; each metric is the ratio of the last attribute, ascending, that reports under its key; the rationale is every ratio below the threshold in order, or else every attribute without enough data |
| `MetricKeys.RecordedExactly` | src/gov_platform/population_engine/policies/adverse_impact_ratio.py:132-134 | every ratio is found under its key if and only if colliding keys have equal ratios |
| `MetricKeys.ColonFreeRecorded` | src/gov_platform/population_engine/policies/adverse_impact_ratio.py:132-134 | which holds when no DIRECT attribute name contains a colon |
| `MetricKeys.CollisionLosesARatio` | src/gov_platform/population_engine/policies/adverse_impact_ratio.py:132-134 | two attributes with whose keys one ratio is lost |
| `AdverseImpact.FlaggedFromEvents` | src/gov_platform/population_engine/window.py:52-69 | an attribute is flagged if and only if, on the raw events in the half-open window, two of its values with enough decisions have one approval rate below the threshold times the other |
| `AdverseImpact.EvaluateWindow` | src/gov_platform/population_engine/policies/adverse_impact_ratio.py:105-154 | from events to outcome, in any order of groups, under the threshold and size the overrides give |
| `AdverseImpact.RatioFromEvents` | src/gov_platform/population_engine/policies/adverse_impact_ratio.py:122-134 | a reported ratio is the value's approval rate over the highest approval rate among the values decided on often enough |
| `Bindings.ApplyInv` | src/gov_platform/db/repositories/policy_binding.py:131-163 | every call keeps one ACTIVE binding per pair, and a failing one changes nothing |
| `Bindings.RunInv` | src/gov_platform/db/repositories/population_policy_binding.py:168-205 | so does any sequence of calls |
| `Bindings.CreateAnswered` | src/gov_platform/db/repositories/policy_binding.py:41-69 | a create is refused exactly when the pair has an ACTIVE binding or the subject does not exist, and else adds the binding as given |
| `Bindings.SetAnswered` | src/gov_platform/db/repositories/policy_binding.py:131-163 | each answer of a change of state, and that only a successful one changes anything |
| `Bindings.SubjectsExisted` | src/gov_platform/db/repositories/population_policy_binding.py:55-90 | no row's pair names a subject that did not exist when the row was created |
| `Bindings.PairCounted` | src/gov_platform/db/repositories/policy_binding.py:41-163 | a pair's rows grow by its successful creates; it is in service exactly when brought in once more than taken out |
| `Bindings.Reactivation` | src/gov_platform/db/repositories/policy_binding.py:131-163 | reactivating fails, untranslated, exactly when another binding of the pair came into service meanwhile, and else undoes the deactivation |
| `Bindings.LookupRaises` | src/gov_platform/db/repositories/policy_binding.py:75-91 | the identity lookup raises if and only if two bindings of the pair were ever created |
| `Bindings.RecreatedPairBreaksLookup` | src/gov_platform/db/repositories/population_policy_binding.py:96-112 | create, deactivate, create does it |
| `Bindings.ActiveListing` | src/gov_platform/db/repositories/population_policy_binding.py:153-166 | a listing of ACTIVE bindings names no pair twice |
| `Bindings.BindingRepository.Create` | src/gov_platform/db/repositories/policy_binding.py:41-69 | refuses exactly when the pair has an ACTIVE binding or the subject does not exist |
| `Bindings.BindingRepository.SetLifecycleState` | src/gov_platform/db/repositories/policy_binding.py:131-163 | one conditional update, with its three errors |
| `Bindings.BindingRepository.ListActive` | src/gov_platform/db/repositories/policy_binding.py:117-129 | every ACTIVE binding once, in creation order |
| `Bindings.BindingRepository.Seed` | src/gov_platform/plugins/seed_registry.py:111-127 | creates only where the pair has no row, leaves an existing row as it is, raises exactly on two or more |
| `PopulationAttempt.AttemptExactly` | src/gov_platform/population_engine/run_policies.py:121-151 | over the registry, a binding is skipped as unregistered exactly when its policy has no PRODUCTION version and as not deployed exactly when this process lacks it; else that version decides |
| `PopulationAttempt.AttemptFromEvents` | src/gov_platform/population_engine/run_policies.py:121-151 | a binding whose PRODUCTION version is the four-fifths policy computes a finding that flags exactly when the raw events in the window fall short for some DIRECT attribute |
| `PopulationBatch.WindowsTile` | src/gov_platform/population_engine/run_policies.py:92-101 | every instant lies in the default window of exactly the runs made on the next UTC day |
| `PopulationBatch.CountedOnce` | src/gov_platform/population_engine/run_policies.py:92-101 | an event of the system counts in the default window of exactly the runs made on the next UTC day |
| `PopulationBatch.RunClosedForm` | src/gov_platform/population_engine/run_policies.py:104-181 | the stored findings after a run: what was there, and one per binding that computes a key not yet stored |
| `PopulationBatch.OrderIrrelevant` | src/gov_platform/population_engine/run_policies.py:241-258 | the same keys and outcomes in any binding order |
| `PopulationBatch.FailuresStayApart` | src/gov_platform/population_engine/run_policies.py:241-258 | however one binding fares, every other key ends the same |
| `PopulationBatch.RerunAdds` | src/gov_platform/population_engine/run_policies.py:159-169 | a re-run adds a finding if and only if a binding that raised now computes one not stored before; after an error-free run it changes nothing |
| `PopulationBatch.FlaggedIsQueued` | src/gov_platform/population_engine/run_policies.py:184-206 | every finding the run flags has an active review at its end, unless that write failed |
| `PopulationBatch.OnlyFlaggedQueued` | src/gov_platform/population_engine/run_policies.py:184-206 | a run adds a review for nothing but a finding it stores that flags; for no CLEAR one |
| `PopulationBatch.BatchFromEvents` | src/gov_platform/population_engine/run_policies.py:104-206 | after a run over a window not yet computed there is a finding, it flags if and only if the raw events fall short for some DIRECT attribute, and then it has an active review unless that write failed |
| `PopulationBatch.Database.RunPopulationPolicyBinding` | src/gov_platform/population_engine/run_policies.py:104-206 | from the registered rows and the deployed code: raises exactly when window, evaluation or storing does, skips exactly what has no deployed PRODUCTION version or is stored, stores the signed finding else, and a lost review changes neither finding nor result |
| `PopulationBatch.Database.RunPolicies` | src/gov_platform/population_engine/run_policies.py:240-260 | the exit code is 1 exactly when some binding raised |
| `PopulationBatch.RunActiveBindings` | src/gov_platform/population_engine/run_policies.py:209-260 | from the binding table to the findings, in closed form |
| `PopulationFindings.AbsentParametersStayAbsent` | src/gov_platform/audit/verify_population_findings.py:67-80 | without parameters a finding hashes as under the schema without the field, and a null or an empty map would sign different text |
| `PopulationFindings.DumpHolds` | src/gov_platform/audit/verify_population_findings.py:67-80 | what is signed: each field under its own name, the parameters only when there are any |
| `PopulationFindings.StoredColumns` | src/gov_platform/db/repositories/population_finding.py:81-117 | what is stored, column by column |
| `PopulationFindings.ReadBack` | src/gov_platform/db/repositories/population_finding.py:81-183 | what is read back is what was stored; NULL, None and the empty map stay distinct |
| `PopulationFindings.VerifyPopulationFindings` | src/gov_platform/audit/verify_population_findings.py:83-110 | valid exactly when every signed record verifies; else the first that does not, by position and id, or an exception exactly when its signature is malformed |
| `PopulationFindings.StoredFindingVerifies` | src/gov_platform/population_engine/run_policies.py:153-164 | every finding signed and stored can be read back and still verifies |
| `PopulationFindings.DumpCoversEverything` | src/gov_platform/audit/verify_population_findings.py:67-80 | equal payloads mean equal findings, field by field |
| `PopulationFindings.SignatureCoversEverything` | src/gov_platform/audit/verify_population_findings.py:83-110 | a signature for one finding verifies for another only if they agree in every field, or the digest collides |
| `PopulationFindings.FindingPagesAreExact` | src/gov_platform/db/repositories/population_finding.py:123-162 | paging findings, filtered by system or not, shows each once |
| `PopulationFindings.ListedExactly` | src/gov_platform/db/repositories/population_finding.py:123-162 | a listing holds exactly the findings of the system, or all, oldest first, those of one instant by ascending id |
| `PopulationFindings.PopulationFindingRepository.Create` | src/gov_platform/db/repositories/population_finding.py:81-117 | stored exactly when the system exists and its policy, system and window have none yet, as signed, and refused otherwise with nothing changed |
| `VerdictQueries.GetExactly` | src/gov_platform/db/repositories/verdict.py:36-60 | a verdict is found by its id, with exactly the findings its links name, each once, in order of evaluation |
| `VerdictQueries.RestrictIsAnswer` | src/gov_platform/db/repositories/verdict.py:84-96 | each verdict's share of the batch answer is an answer to its own query |
| `VerdictQueries.GetMany` | src/gov_platform/db/repositories/verdict.py:62-105 | exactly the existing ids, each as `get` returns it, for every answer to its query when its findings do not tie |
| `VerdictQueries.ReadsAgree` | src/gov_platform/db/repositories/verdict.py:36-105 | the two reads agree however they are answered if and only if no two findings of the verdict share timestamp and policy id |
| `VerdictQueries.ReadOrderIsWriteOrder` | src/gov_platform/db/repositories/verdict.py:40-52 | read order is write order if and only if policies at equal timestamps ran in ascending order of their ids, in the database's collation |
| `VerdictQueries.ReadBackSwapped` | src/gov_platform/db/repositories/verdict.py:40-52 | two findings of one tick whose policies ran in descending order of ids: every answer has them swapped |

## Left out

- FastAPI wiring, HTTP status codes, middleware, command-line parsing, logging, settings and dashboards: plumbing around the modelled state.
- SHA-256, Ed25519 and Fernet internals: foreign libraries, met here through their laws.
- Postgres beyond what is said above: statements are atomic steps, and waiting on a lock is a step not yet enabled.
- IEEE 754 rounding and the printing of floats: rates are rationals, JSON numbers are the literals they print as, and one stored in another spelling keeps it.
- Limits of the interpreter on nesting depth and on the digits of an integer.
- Escapes of lone surrogates in JSON text: refused by the parser here, since Dafny's characters leave them out; a stored payload holding one counts as no JSON object.
- Offsets and formats of timestamps: an instant prints as an arbitrary function prints it, injective where that matters.
- Sandbox timeouts: a plugin call returns a finding or fails.
- Provisioning of systems and model versions inside an append, and the rules of the protected-attribute resolver: the resolver yields rows or aborts the transaction.
- Surrogate ids and timestamps of plugin registrations: rows are keyed by type, id and version.
- The `disparity_significance_test` policy: its source is not part of this model.
- Tokens, cookies and roles, beyond the principal's name.
- Metrics and compliance counts, retention, migrations, adapters, normalization and the single-event policies: they would only add easy members.
- `EvidenceStore.get`: reads one of the rows `LedgerReadBack.All` reads.
- Review rows' own get by id, and the responses that embed verdicts: value conversions.
- The wording of rationales and status lines: the rationale is the list of what it names.
- Values other than numbers in a stored metrics text, which the original's validation may coerce: the stored text is what the repository wrote.
- PopulationBatch.Database.RunPopulationPolicyBinding: a deployed policy is a function of the window it is given, and its findings are taken to name that policy, system and window.
- PluginRegistry.NewestSeededExactly: versions other than dotted numbers have no release order here.
- Ordering.Sort: an insertion sort stands for `sorted` and for ORDER BY, because only the result matters.
