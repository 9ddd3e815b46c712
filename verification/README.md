# Verified models of the halal-certification backend

The backend keeps its rules in request handlers that read rows, check them and write
them back: which modules a tenant may use, how a document is approved and superseded,
when a certificate may be issued and how it is revoked, what an audit visit freezes,
which row a login belongs to. This project models those rules in Dafny and proves what
they guarantee over every run, every interleaving of sessions, or every input. It also
pins down where a guarantee fails, with a concrete failing case and the exact condition
under which it holds.

`dafny verify dfyconfig.toml` checks everything.

| file | what it models |
|---|---|
| `ModuleEntitlements.dfy` | module activation against the dependency graph, provisioning, activation requests |
| `ReplayProtocol.dfy` | the idempotency receipt and the mutation in one transaction, over racing sessions, retries and aborts |
| `OfflineReplay.dfy` | redaction, the hashed request text down to the JSON characters, receipt scopes |
| `VisitFreeze.dfy` | audit visits, their checklist and NCR writers, and the row lock they share |
| `Scores.dfy` | compliance scores of visits and their 40/60 composite |
| `DocumentChain.dfy` | document approval, supersede and delete |
| `CertificationDecisions.dfy` | decision cases, racing finalizers, certificate issue |
| `CertificateLifecycle.dfy` | status changes, revocation, bulk revocation, public verification |
| `IdentityBinding.dfy` | binding Keycloak subjects to user rows |
| `TeamRemoval.dfy` | deleting a team account from the database and from Keycloak |
| `AccountDeletion.dfy` | deletion cases: building, executing with failures and retries, removing files |
| `RateLimiting.dfy`, `AuthorityCache.dfy` | the sliding-window limiter; the LRU and TTL cache of realm roles |
| `Chunking.dfy`, `Reranking.dfy` | overlapping chunks; score sorting, diversity filter, context budget |
| `Common.dfy` | options, ASCII strings, laws of concatenation, walks in graphs, chains of links |

## How the code is modelled

Code that changes state step by step is a class whose methods are proved against a
specification function; the theorems are lemmas about that function and its runs. Where
several sessions interleave, the state machine has one step for each section that runs
without an `await`, a lock wait or a commit in between, and the theorems range over all
interleavings. What comes from outside (clock, fresh ids, the row a query returns first,
Keycloak's answers, failing statements) is an input, so the theorems hold for all of it.

The theorems over runs are about a specification function for each request. What that
function does is pinned down separately: for each request one lemma gives the exact
condition of every answer and the exact content of every row it writes, in the source's
literal words and numbers and without naming the function's own helpers, and says that
nothing else changes (`CallAnswers`, `AcceptedCallStores`, `SupersedeAnswers`,
`PopulateReplaces`, `AnsweredRowHolds`, `DecisionWrites`, `CompletedDeleteTookEffect` and
their neighbours).

Several of these routes check in one statement and write in another, by id alone. Their
models take a request as one step first and then drop that: the last sections give a
failing interleaving and the exact condition on the rows at the time of the write under
which the late write is harmless, and then theorems over runs that mix requests and late
writes. Those are module status and request review, document submit, approve, reject and
supersede, certificate status and revocation, identity linking, and overlapping runs of a
deletion case.

## What does not hold

Each item names the lemmas with the failing case and with the exact condition.

- The dependency guards of module activation look for the label `requires`, which the
  table's CHECK does not admit, so they never refuse (`SeededDependencyIsNotEnforced`,
  `SchemaLabelsDisarmTheGuards`). All closure theorems are about edges with that label.
  Provisioning has no guard at all (`ProvisionBreaksClosure`, `ProvisionKeepsClosedIff`).
- Late writes of module requests break closure (`InterleavedWritesBreakClosure`,
  `WriteKeepsClosedIff`; over runs `ClosedThroughoutIff`) and reject an approved activation
  (`LateRejectionOverturnsApproval`, `LateReviewKeepsVerdictsIff`, `VerdictStandsIff`).
- A late supersede closes a cycle of successors (`InterleavedSupersedesMakeACycle`,
  `LateSupersedeKeepsAcyclicIff`) or gives one document two approved successors of one
  version (`InterleavedSupersedesShareAParent`, `LateSupersedeKeepsInvIff`).
- A late submit or reject puts an approved document back to draft or pending
  (`LateSubmitUndoesApproval`, `LateRejectUndoesApproval`,
  `LateSubmitOrRejectKeepsApprovalsIff`, `LateSubmitOrRejectKeepsInvIff`), and a late
  approval revives a superseded one (`LateApproveRevivesObsolete`, `LateApproveKeepsInvIff`).
  Over runs: `ApprovedUntilUndoneIff`, `InvThroughoutIff`.
- A late status write revives a revoked certificate (`LateReactivationRevivesRevoked`,
  `LateStatusWriteIff`) and a late revocation replaces the record of another
  (`LateRevocationOverwritesRecord`, `LateRevocationWriteIff`). Over runs:
  `RevokedUntilRewrittenIff`, `ConsistentThroughoutIff`.
- A late link moves a row to another subject (`RacingLinksTransferTheRow`,
  `LateLinkKeepsBindingsIff`; over runs `BoundUntilTakenOverIff`).
- Approval does not protect a document from deletion; its official artifact does, and
  rows approved by the migration's backfill have none (`BackfilledApprovalIsDeletable`,
  `DeletableIff`). From states where every approved document has its artifact, and under
  atomic requests, `ApprovedIsForever` holds; with late writes `ApprovedUntilUndoneIff`.
- The newest-row check misses an approval when the approved row does not come first in the
  query's order, as with equal creation and decision times (`TiedRowsHideAnApproval`,
  `IssueCheckFindsApprovalIff`, and before the write `ApprovalWillBeFoundIff`). A dossier
  filed between the list and the insert is not covered by the certificate
  (`LateDossierIsNotCovered`, `InsertCoversActiveDossiersIff`).
- Bulk revocation raises unless the revoker is the issuer or there is nothing to revoke
  (`RevokeDecisionOfAnother`, `RevokeDecisionChangesTableIff`, and for the loop
  `RevokeActiveCertsForBusiness`): the refusal of `revoke_cert` is not caught.
- A visit decision to renew or suspend calls `log_audit`, which `audit_router.py` does not
  import (line 1749): it raises and is rolled back (`UnauditedDecisionChangesNothing`,
  `DecisionChangesTableIff`).
- Reconciliation can answer with another row than token enrichment chose, because emails
  are unique by exact spelling and looked up by lower case, stripped only in the second
  lookup (`CaseVariantsDisagree`, `UntrimmedRowIsDoubled`, `DisagreeIff`).
- Removing a team account can leave the row without its Keycloak identity: when the reply
  is lost, when the removal dies after the call, and when a row that would be deleted
  with the user comes to be held after the probe. The parent's row lock does not cover
  that last case, against the function's documentation (`HoldAfterTheProbeParts`,
  `StepAgreesIff`, `FinalDeleteFailsIff`).
- The counters of a deletion run exceed the number of items when an outcome cannot be
  recorded (`UnrecordedCompletionCountsTwice`, `CountersSumToItemsIff`). Overlapping runs
  execute an item twice (`OverlappingRunExecutesAgainIff`) and write over its recorded
  completion (`LateFailureUndoesCompletion`, `CompletionCanBeLostIff`,
  `CompletionStandsIff`); the data are unharmed (`ExecutingAgainIsHarmless`).
- Removing uploaded files can leave paths of files that are gone: of rows that share a
  file, and of uploads attached to a dossier (`SharedFileLeavesADanglingPath`,
  `AttachedUploadLosesItsFile`, `NoPathDanglesIff`).
- Detaching the revoker of a revoked certificate violates a CHECK, so the item for it fails
  as long as there is such a certificate, and its case never completes
  (`RevokedCertificateFailsItsCase`, `RevokerItemFailsIff`; over retries
  `RevokerItemCompletesIff`, `RevokedCertificateKeepsTheCaseOpen`).
- A report shows a stored score even if the checklist has changed since
  (`StaleScoreIsReported`, `ReportIsCurrentByStoredScore`,
  `ReportIsCurrentSinceCompletionIff`).
- Short tail chunks lose words exactly when `MIN_CHUNK_WORDS` exceeds the overlap plus
  one (`EveryLongTextRebuildsIff`, `RebuildsIff`); the shipped defaults lose none.

## Model

| member | source | states |
|---|---|---|
| RateLimiting.RateLimiter.constructor | backend/auth/rate_limit.py:14-15 | A new limiter has no entry for any key. |
| RateLimiting.RateLimiter.Check | backend/auth/rate_limit.py:17-28 | One call prunes the key's list, then either raises 429 and stores the pruned list or appends the time and admits; the whole new table is stated. |
| RateLimiting.PruningIsHarmless | backend/auth/rate_limit.py:19-20 | What an earlier call prunes, a later call with the same window would not have counted. |
| RateLimiting.StoredAgreesWithHistory | backend/auth/rate_limit.py:17-28 | After any history with a non-decreasing clock the stored list, pruned at any later time, equals the never-pruned list of admissions pruned at that time. |
| RateLimiting.RejectedExactlyAtLimit | backend/auth/rate_limit.py:21-27 | A call is rejected exactly when the limit of admissions of its key lies in the preceding window. |
| RateLimiting.WindowNeverExceedsLimit | backend/auth/rate_limit.py:17-28 | For every history no interval of length `window` contains more than `limit` admitted calls of a key. |
| RateLimiting.OtherKeysUntouched | backend/auth/rate_limit.py:18-28 | A call changes the entry of no other key. |
| RateLimiting.AdmittedIffBelowLimit | backend/auth/rate_limit.py:17-28 | By counting calls: a call is admitted exactly when fewer than `limit` admitted calls of its key lie less than `window` before it. |
| AuthorityCaching.AuthorityCache.constructor | backend/auth/live_authority.py:15-16 | The cache starts empty with a lifetime clamped to 0..30 seconds. |
| AuthorityCaching.AuthorityCache.Get | backend/auth/live_authority.py:19-23 | A lookup answers exactly when an unexpired entry exists, moves that key to the end, and changes nothing else. |
| AuthorityCaching.AuthorityCache.Put | backend/auth/live_authority.py:54-61 | A store with remaining life records the clamped expiry, moves the key to the end and evicts from the front down to 1024; without remaining life it changes nothing. |
| AuthorityCaching.RunIsValid | backend/auth/live_authority.py:16-61 | Over every interleaving of lookups and stores the entry keys and the order list agree, without repetitions and within capacity. |
| AuthorityCaching.TouchCommutesWithTrim | backend/auth/live_authority.py:57-60 | Touching a key of a trimmed recency list and trimming again equals touching the full list and trimming once. |
| AuthorityCaching.OrderIsTrimmedRecency | backend/auth/live_authority.py:19-23 | The order list is the last 1024 elements of the recency list an unbounded cache would keep. |
| AuthorityCaching.RecencyIsByLastTouch | backend/auth/live_authority.py:57-60 | That recency list is exactly the touched keys in the order of their last touch. |
| AuthorityCaching.LastTouchTouches | backend/auth/live_authority.py:19-23 | The last-touch index of a key names an event that touches that key. |
| AuthorityCaching.NoTouchAfterTheLast | backend/auth/live_authority.py:57-58 | No later event touches the key. |
| AuthorityCaching.HoldsTheMostRecentKeys | backend/auth/live_authority.py:59-60 | A key is cached exactly when it was touched and fewer than 1024 other keys were touched since; the order is that of last touches. |
| AuthorityCaching.EntriesComeFromLastStore | backend/auth/live_authority.py:54-58 | A cached entry is what the last accepted store of its key wrote. |
| AuthorityCaching.HitIsFresh | backend/auth/live_authority.py:20-23 | A hit returns the roles of the last accepted store, made less than min(TTL, remaining token life) before. |
| AuthorityCaching.HitIff | backend/auth/live_authority.py:19-23 | A lookup hits exactly when fewer than 1024 other keys were touched since the key was, and less than the TTL and than the token's remaining life has passed since its last accepted store. |
| Chunking.SlidingWindowChunks | backend/pipeline/ingest.py:245-259 | The loop returns the specified windows, each between the minimum and the chunk size, and terminates when the overlap is below the chunk size. |
| Chunking.WindowsAddTheRest | backend/pipeline/ingest.py:252-259 | From any start the kept windows, less their overlaps, spell out the words up to the kept end. |
| Chunking.StitchedText | backend/pipeline/ingest.py:245-259 | The first chunk followed by the later ones without their overlap is the text up to the kept end. |
| Chunking.RebuildsIff | backend/pipeline/ingest.py:254-258 | A long text is rebuilt word for word exactly when the first window reaching its end has enough words. |
| Chunking.EveryLongTextRebuildsIff | backend/pipeline/ingest.py:51-53 | All long texts are rebuilt exactly when MIN_CHUNK_WORDS <= overlap + 1; the bound is sharp. |
| Chunking.DefaultsLoseNothing | backend/pipeline/ingest.py:51-53 | With 400/80/30 no word of a long text is lost. |
| Chunking.ChunkAt | backend/pipeline/ingest.py:241-259 | Chunk k is the slice of `size` words that starts k steps into the text, kept exactly when it is long enough; a text of one chunk at most is that chunk, or nothing when it is too short. |
| Reranking.FinalScore | backend/pipeline/query.py:292-323 | The score is the base plus the fixed boosts plus the boost of the first matching expansion only, a title match counting 0.4 and a text match 0.2. |
| Reranking.SortIsStable | backend/pipeline/query.py:326 | The ranking is descending, has all candidates, and keeps the order among equal scores. |
| Reranking.StableSortIsUnique | backend/pipeline/query.py:326 | Any two descending lists that agree at every score are equal, so the ranking is the only stable one. |
| Reranking.Diversify | backend/pipeline/query.py:329-341 | The loop returns the first `top_k` entries of the ranking without later repeats of a 200-character prefix. |
| Reranking.DistinctFacts | backend/pipeline/query.py:336-341 | Those entries come from the ranking and no two share a prefix. |
| Reranking.Rerank | backend/pipeline/query.py:289-345 | The result is the first min(top_k, RERANK_TOP_K) distinct entries of the stably sorted candidates, scored as phase 3 scores them. |
| Reranking.KeptWhenRoom | backend/pipeline/query.py:332-341 | An entry that repeats no better prefix and finds room is kept at the place its rank gives it. |
| Reranking.KeptRankAbove | backend/pipeline/query.py:333-334 | Once the quota is filled every kept entry ranks at least as high as the next. |
| Reranking.OmittedOnlyForCause | backend/pipeline/query.py:332-345 | Every omitted candidate repeats a better-ranked prefix or ranks below a full result. |
| Reranking.BuildContext | backend/pipeline/query.py:361-369 | The context is the longest prefix of the hits within the word budget, numbered from 1. |
| Reranking.WordTotalGrows | backend/pipeline/query.py:364-368 | A longer prefix never has fewer words, so stopping at the first overflow is right. |
| Reranking.OccursIff | backend/pipeline/query.py:292-316 | The substring test. |
| Reranking.SamePrefixIff | backend/pipeline/query.py:336-338 | Two points repeat each other exactly when their texts are equal or agree on 200 characters. |
| OfflineReplay.RedactSensitive | backend/auth/offline_replay_idempotency.py:172-187 | The field-by-field loop computes the recursive redaction. |
| OfflineReplay.RedactionLeavesNoSecret | backend/auth/offline_replay_idempotency.py:172-187 | No sensitive key remains at any depth and the value stays well formed. |
| OfflineReplay.RedactionKeepsPublicValues | backend/auth/offline_replay_idempotency.py:172-187 | A value without sensitive keys is unchanged. |
| OfflineReplay.RedactionIsIdempotent | backend/auth/offline_replay_idempotency.py:172-187 | Redacting twice is redacting once. |
| OfflineReplay.AscendingIsUnique | backend/auth/offline_replay_idempotency.py:98-109 | A field list in ascending key order is determined by its fields. |
| OfflineReplay.AgreeIffSameCanonical | backend/auth/offline_replay_idempotency.py:97-109 | Equality up to key order and secret fields at every depth is exactly equality of the canonical trees. |
| OfflineReplay.ValuesAreReadable | backend/auth/offline_replay_idempotency.py:98-109 | The JSON writer is injective on well-formed values, in front of any following text. |
| OfflineReplay.SameHashInputIffAgree | backend/auth/offline_replay_idempotency.py:97-109 | Two requests hand the same text to the hash exactly when payload and identity agree up to key order and secret fields. |
| OfflineReplay.SameHashIffAgree | backend/auth/offline_replay_idempotency.py:97-109 | The same for the digest, for every hash function without collisions. |
| OfflineReplay.StripKeepsActor | backend/auth/submission_router.py:1366-1387 | Stripping an actor-extended resource key keeps the actor at its end. |
| OfflineReplay.ActorsNeverShareReceipts | backend/auth/submission_router.py:730-747 | Two different actors never build the same receipt scope on the submission routes. |
| OfflineReplay.SensitiveWords | backend/auth/offline_replay_idempotency.py:13-24 | A key is sensitive exactly when it spells one of the eight words, up to ASCII capitals and the Kelvin sign. |
| OfflineReplay.FieldStaysIff | backend/auth/offline_replay_idempotency.py:172-180 | Of an object exactly the fields stay whose key spells none of the eight words, under their key, with a redacted value. |
| OfflineReplay.SecretsAreGone | backend/auth/offline_replay_idempotency.py:172-187 | After redaction no object at any depth has a key that spells one of the words. |
| OfflineReplay.SortFieldsFacts | backend/auth/offline_replay_idempotency.py:108 | Sorting a dictionary's fields keeps exactly these fields and puts their keys in ascending order. |
| OfflineReplay.LessAtFirstDifference | backend/auth/offline_replay_idempotency.py:108 | Keys are ordered by code point at the first difference. |
| OfflineReplay.DumpsIsJoin | backend/auth/offline_replay_idempotency.py:108 | The text of a list or object is the texts of its items or fields, in order, joined by commas and colons without white space. |
| OfflineReplay.DumpsOfText | backend/auth/offline_replay_idempotency.py:108 | A string is written between quotes, each character as its escape. |
| OfflineReplay.EscapesAre | backend/auth/offline_replay_idempotency.py:108 | Quote, backslash and control characters have the escapes of JSON; every other character, ASCII or not, stands for itself. |
| OfflineReplay.HashInputText | backend/auth/offline_replay_idempotency.py:104-108 | The hashed text is one object with the payload first and the resource identity second, both redacted and sorted. |
| OfflineReplay.ScopeColumns | backend/auth/offline_replay_idempotency.py:71-94 | Each part of a receipt scope goes, stripped, into the column of its name. |
| ReplayProtocol.StepKeepsInv | backend/auth/audit_router.py:43-98 | Every enabled step of every session keeps the protocol's invariant. |
| ReplayProtocol.RunKeepsInv | backend/auth/audit_router.py:43-98 | So does every run. |
| ReplayProtocol.EffectCommitsAtMostOnce | backend/auth/audit_router.py:43-98 | In every interleaving the number of committed effects of a key is one when its receipt is committed and zero otherwise. |
| ReplayProtocol.ReceiptsArePermanent | backend/auth/audit_router.py:70-98 | A committed receipt never changes. |
| ReplayProtocol.SuccessesAgree | backend/auth/audit_router.py:62-98 | All successes for a key, in any sessions at any times, carry one hash and one response. |
| ReplayProtocol.DuplicatesReadFinishedReceipts | backend/auth/offline_replay_idempotency.py:112-135 | What a duplicate reads is committed and finished, never in progress; it answers the stored response for the same hash, conflict for another, and has no effect. |
| ReplayProtocol.OnlySuccessHasEffect | backend/auth/audit_router.py:70-98 | A session answering conflict or failure leaves no effect. |
| ReplayProtocol.AbortLeavesKeyFree | backend/auth/audit_router.py:43-98 | An abort changes neither receipts nor effects, and a fresh session can then reserve the key and carry it to success. |
| ReplayProtocol.ReplayStore.Execute | backend/auth/audit_router.py:36-98 | One undisturbed request inserts the receipt, runs the mutation and completes the receipt, or answers from the existing receipt; the tables after it are stated. |
| ReplayProtocol.UndisturbedRequestFollowsProtocol | backend/auth/audit_router.py:36-98 | The undisturbed request is a run of the protocol with the same tables and answer. |
| ReplayProtocol.EnabledIff | backend/auth/audit_router.py:43-98 | When each step can happen: a reservation waits while another session has the receipt of its key uncommitted. |
| ReplayProtocol.StepWrites | backend/auth/audit_router.py:43-98 | What each step does to its session, and a commit to the tables; no step writes another session. |
| ModuleEntitlements.ModuleService.SetTenantModuleStatus | backend/auth/module_service.py:231-356 | A call answers with the first refusal in the source's order or writes one row with its timestamps; the new rows are stated. |
| ModuleEntitlements.ModuleService.ReviewActivationRequest | backend/auth/module_service.py:701-766 | Approval sets the module to trial first and stays pending when that is refused; rejection only closes the request. |
| ModuleEntitlements.WriteKeepsClosedIff | backend/auth/module_service.py:275-319 | Writing one status keeps the active set dependency-closed exactly when an activation has its dependencies active and a deactivation has no active dependent. |
| ModuleEntitlements.SetKeepsClosed | backend/auth/module_service.py:275-319 | An accepted call keeps the active set closed and never deactivates a required module. |
| ModuleEntitlements.RunKeepsClosed | backend/auth/module_service.py:231-356 | So does every run of set, create and review requests. |
| ModuleEntitlements.ClosedIsTransitive | backend/auth/module_service.py:275-297 | Closure reaches every module on any path of requires edges. |
| ModuleEntitlements.EntangledStaysInactive | backend/auth/module_service.py:275-297 | No run ever activates a member of an inactive set in which every module requires another member. |
| ModuleEntitlements.HasSink | backend/auth/module_service.py:275-319 | Every non-empty set of an acyclic graph has a member without a successor in the set. |
| ModuleEntitlements.ActivateAll | backend/auth/module_service.py:275-297 | A set whose dependencies are active or inside it can be activated by a sequence of accepted calls. |
| ModuleEntitlements.DeactivateAll | backend/auth/module_service.py:298-319 | A set that no remaining active module needs can be deactivated by a sequence of accepted calls. |
| ModuleEntitlements.ReachableIffAdmissible | backend/auth/module_service.py:275-319 | From a closed state of an acyclic graph, a target set is reached by some sequence of accepted calls exactly when it is closed, keeps the active required modules and moves only modules that can be set. |
| ModuleEntitlements.ProvisionKeepsClosedIff | backend/auth/module_service.py:50-103 | Provisioning keeps the active set closed exactly when no edge leads from a module it leaves active to one it does not. |
| ModuleEntitlements.ProvisionBreaksClosure | backend/auth/module_service.py:50-103 | A default of disabled for a module that an administrator's override depends on: provisioning keeps the override and disables its dependency. |
| ModuleEntitlements.SchemaLabelsDisarmTheGuards | backend/alembic/versions/041_module_registry.py:80-89 | With the labels the table constraint admits, neither dependency guard ever refuses a call. |
| ModuleEntitlements.SeededDependencyIsNotEnforced | backend/alembic/versions/041_module_registry.py:92-170 | With the whole seeded registry, a newly provisioned hotel, whose modules respect the seeded dependencies, may enable public trace without traceability. |
| ModuleEntitlements.InterleavedWritesBreakClosure | backend/auth/module_service.py:275-340 | Two calls that both pass their checks before either writes can leave an active module without its dependency. |
| ModuleEntitlements.LateRejectionOverturnsApproval | backend/auth/module_service.py:715-751 | A rejection that read a pending request and writes after its approval leaves the module active and the request rejected. |
| ModuleEntitlements.LateReviewKeepsVerdictsIff | backend/auth/module_service.py:739-751 | A late review overturns no verdict exactly when its request is still pending or has that verdict already. |
| ModuleEntitlements.UpdateKeepsClosedIff | backend/auth/module_service.py:50-340 | Of the calls served at once, late writes and provisionings, each keeps the active set closed exactly when its guard holds of the rows at its time. |
| ModuleEntitlements.ClosedThroughoutIff | backend/auth/module_service.py:50-340 | Any interleaving of calls, late writes and provisionings keeps the active set closed throughout exactly when each late write and provisioning meets its guard at its time. |
| ModuleEntitlements.VerdictStandsIff | backend/auth/module_service.py:715-751 | In any interleaving a reviewed request keeps its verdict exactly until a late review of it writes another. |
| ModuleEntitlements.CallAnswers | backend/auth/module_service.py:247-319 | Which of the six answers a call gets, by the four status words, the registry, the required modules and the rows of its dependencies, with the modules the refusals name. |
| ModuleEntitlements.AcceptedCallStores | backend/auth/module_service.py:321-345 | An accepted call stores the status asked for as an administrator's override, keeps an earlier enabling or disabling time, clears the other, and changes no other row. |
| ModuleEntitlements.AcceptedCallSurvivesProvisioning | backend/auth/module_service.py:74-93 | Provisioning under any business model at any later time leaves the row of an accepted call as it is. |
| ModuleEntitlements.ProvisionedRow | backend/auth/module_service.py:50-103 | Provisioning leaves overrides and modules outside the business model alone; every other module follows its default, with its first time kept. |
| ModuleEntitlements.ProvisionIsIdempotent | backend/auth/module_service.py:50-103 | Provisioning again, at any later time, changes nothing. |
| ModuleEntitlements.SetAnswers | backend/auth/module_service.py:231-345 | A set request leaves the activation requests alone, and the rows unless the call is accepted. |
| ModuleEntitlements.SeededHotelIs | backend/alembic/versions/041_module_registry.py:127-137 | The seed of restaurants and hotels: seven modules required and on, three optional and off. |
| ModuleEntitlements.ReviewAnswers | backend/auth/module_service.py:701-766 | A review does nothing unless its request is pending; a rejection closes it; an approval puts its module on trial and closes it, or fails whole. |
| ModuleEntitlements.CreateAnswers | backend/auth/module_service.py:466-545 | A request is created, pending, exactly for a known inactive module without a pending request. |
| DocumentChain.DocumentStore.SupersedeDocument | backend/auth/document_router.py:1478-1515 | The checks in their order, then both updates; the new table is stated. |
| DocumentChain.DocumentStore.DeleteDocument | backend/auth/document_router.py:939-1003 | Deletion is refused for an artifact, a child or another table's reference, and otherwise removes the row and nulls the links to it. |
| DocumentChain.DocumentStore.ChangeApproval | backend/auth/document_router.py:1314-1475 | As one request, submit, approve and reject move one row along draft, pending, approved and back; the late writes have rows of their own. |
| DocumentChain.StepKeepsInv | backend/auth/document_router.py:1494-1515 | Every request, accepted or refused, keeps the chain invariant. |
| DocumentChain.RunKeepsInv | backend/auth/document_router.py:1494-1515 | So does every run. |
| DocumentChain.VersionsAreConsistent | backend/auth/document_router.py:1494-1515 | In every run no approved document has a child or a successor, no document has two children, and each child is one version above its parent. |
| DocumentChain.ChainsAreAcyclic | backend/auth/document_router.py:1494-1515 | In every run neither the parent links nor the successor links form a cycle. |
| DocumentChain.EveryChainHasAHead | backend/auth/document_router.py:1494-1515 | Following successors from any document ever approved ends at an approved document of the same tenant. |
| DocumentChain.ApprovedIsForever | backend/auth/document_router.py:980-993 | From any state of the invariant, under atomic requests, a document once approved stays approved or obsolete and is never deleted. |
| DocumentChain.DeletableIff | backend/auth/document_router.py:980-1003 | A document can be deleted exactly when it has no artifact, no child and no reference from another table; approval alone does not protect it. |
| DocumentChain.BackfilledApprovalIsDeletable | backend/alembic/versions/017_document_version_control.py:45-60 | A row the migration marked approved has no artifact and can be deleted. |
| DocumentChain.InterleavedSupersedesMakeACycle | backend/auth/document_router.py:1494-1515 | Two supersedes that both pass their checks before either writes make two documents each other's successor. |
| DocumentChain.LateSupersedeKeepsAcyclicIff | backend/auth/document_router.py:1502-1515 | A late write keeps the successor links acyclic exactly when the replacement does not lead back to the document. |
| DocumentChain.InterleavedSupersedesShareAParent | backend/auth/document_router.py:1494-1515 | Two supersedes of one document that both pass their checks before either writes make no cycle, but leave two approved children of one parent at one version. |
| DocumentChain.LateSupersedeKeepsInvIff | backend/auth/document_router.py:1502-1515 | A late write keeps the whole chain invariant exactly when the old document has its artifact, both are of one tenant, the replacement was approved at some time, the version read is current, the old document has no other child, a child of the replacement already fits its new version, and the replacement does not lead back. |
| DocumentChain.LateSupersedeWithCurrentReads | backend/auth/document_router.py:1494-1515 | In particular when both rows are still approved and the version read is current. |
| DocumentChain.LateRejectUndoesApproval | backend/auth/document_router.py:1444-1459 | A reject that read a pending row and writes after its approval puts the approved document back to draft. |
| DocumentChain.LateSubmitOrRejectKeepsApprovalsIff | backend/auth/document_router.py:1325-1336 | A late submit or reject undoes no approval exactly when its row has not been approved by then. |
| DocumentChain.LateSubmitOrRejectKeepsInvIff | backend/auth/document_router.py:1444-1459 | A late submit or reject keeps the chain invariant exactly when its row was not approved by then, or is approved and in no chain. |
| DocumentChain.LateSubmitUndoesApproval | backend/auth/document_router.py:1314-1336 | Of two submits that read one draft, the second may write after the approval of the first and undo it. |
| DocumentChain.LateApproveRevivesObsolete | backend/auth/document_router.py:1362-1391 | Of two approvals that read one pending row, the second may write after the document was superseded, and makes it approved with a successor. |
| DocumentChain.LateApproveKeepsInvIff | backend/auth/document_router.py:1362-1391 | A late approval keeps the chain invariant exactly when its row has not been superseded by then. |
| DocumentChain.WriteKeepsApprovalIff | backend/auth/document_router.py:1314-1515 | Of all requests and late writes, just a late submit or reject of the document itself undoes its approval. |
| DocumentChain.ApprovedUntilUndoneIff | backend/auth/document_router.py:1314-1515 | In every interleaving a document approved with its artifact stays approved or obsolete, and undeleted, exactly until a late submit or reject of it. |
| DocumentChain.WriteKeepsInvIff | backend/auth/document_router.py:1314-1515 | Of all requests and late writes, each keeps the chain invariant exactly when it finds in its rows what the iff of its kind asks for. |
| DocumentChain.InvThroughoutIff | backend/auth/document_router.py:1314-1515 | Any interleaving of requests and late writes keeps the chain invariant throughout exactly when every late write finds that at its time. |
| DocumentChain.UploadAnswers | backend/auth/document_router.py:772-815 | A new document is a draft of version 1, in no chain and without artifact. |
| DocumentChain.SubmitAndRejectAnswer | backend/auth/document_router.py:1314-1475 | Submit takes the tenant's draft to review and reject takes it back; any other state is a conflict. |
| DocumentChain.ApproveAnswers | backend/auth/document_router.py:1356-1425 | An approval needs a pending document of the tenant, retention of at least 1825 days and a review no earlier than the effective date, and ends with the artifact or not at all. |
| DocumentChain.SupersedeAnswers | backend/auth/document_router.py:1478-1515 | Which answer a supersede gets, in the order of the checks; the old document ends obsolete with its successor, the new one as its child one version up, and no other changes. |
| DocumentChain.DeleteAnswers | backend/auth/document_router.py:939-1003 | Which answer a deletion gets; the row goes, links to it are nulled, and nothing else changes. |
| Links.RedirectKeepsAcyclicIff | backend/auth/document_router.py:1502-1515 | Setting one link of a partial function keeps its chains acyclic exactly when the new end does not lead back. |
| CertificationDecisions.StepKeepsInv | backend/services/certification_decisions.py:92-150 | Every step of every session keeps the invariant, whatever the clock shows: of two live decisions of a submission one is rejected, and open issuers and issued certificates rest on dossiers that pass the check. |
| CertificationDecisions.RunKeepsInv | backend/services/certification_decisions.py:92-150 | So does every run. |
| CertificationDecisions.DecisionChange | backend/services/certification_decisions.py:92-103 | Decisions change only by opening a case of a submission without an open one, or by deciding a pending row. |
| CertificationDecisions.ApprovedSubmissionIsSettled | backend/services/certification_decisions.py:92-103 | While a submission has an approved decision no other row of it is opened or decided. |
| CertificationDecisions.AllowedStays | backend/services/certification_decisions.py:299-310 | A submission that passes the issue check passes it ever after. |
| CertificationDecisions.AllOthersAreRejected | backend/services/certification_decisions.py:92-103 | In every run all live decisions of a submission but a pending or approved one are rejected. |
| CertificationDecisions.IssueCheckFindsApprovalIff | backend/services/certification_decisions.py:164-172 | In every run, with any clock, the check fails without an approval, and finds an approved row exactly when that row comes before all other live rows in the query's order. |
| CertificationDecisions.ApprovalWillBeFoundIff | backend/services/certification_decisions.py:164-172 | Before an approval is written: it will be found exactly when every other live row of the submission is older, or as old and decided earlier or not at all, or decided at the same instant and smaller by id. |
| CertificationDecisions.TiedRowsHideAnApproval | backend/services/certification_decisions.py:164-172 | Two cases created and decided at one instant are ordered by id, and the check can miss the approved one. |
| CertificationDecisions.DecidedCaseAddsARow | backend/services/certification_decisions.py:251-286 | A case opened and decided undisturbed adds exactly the decided row. |
| CertificationDecisions.OnlyTheNewestIsOpen | backend/services/certification_decisions.py:92-103 | With an advancing creation clock all live decisions of a submission but the newest are rejected. |
| CertificationDecisions.AllowedIffApproved | backend/services/certification_decisions.py:299-310 | If the older of two live rows is always rejected, the newest-row check is the search for an approved decision. |
| CertificationDecisions.IssueCheckIffApproved | backend/services/certification_decisions.py:299-310 | So with an advancing creation clock the issue check passes exactly when an approved decision exists, in every run. |
| CertificationDecisions.DecidedOnce | backend/services/certification_decisions.py:251-286 | A decision leaves review at most once; verdict, maker, reason and time then stay. |
| CertificationDecisions.RacingFinalizersOneWins | backend/services/certification_decisions.py:251-286 | Of two finalizers past their checks the first write decides and the second changes no decision. |
| CertificationDecisions.CertificatesRestOnApprovals | backend/auth/certificate_router.py:93-117 | Whatever the clock shows, every certificate rests on dossiers that all pass the issue check, from its issue on. |
| CertificationDecisions.InsertCoversActiveDossiersIff | backend/auth/certificate_router.py:93-117 | At the insert all active dossiers of the pair pass the check exactly when those filed since the list do. |
| CertificationDecisions.LateDossierIsNotCovered | backend/auth/certificate_router.py:93-117 | A dossier filed between the list and the insert is not covered by the certificate. |
| CertificationDecisions.CreateOpens | backend/services/certification_decisions.py:50-149 | A case is opened, pending, exactly by permission, for the provider's own submission, without another pending or approved case. |
| CertificationDecisions.FinalizerPasses | backend/services/certification_decisions.py:222-262 | A finalizer passes its checks exactly by permission, with a verdict and a reason that is not blank, for a pending case of its provider not audited by the maker. |
| CertificationDecisions.FinalizerDecides | backend/services/certification_decisions.py:262-296 | Its write decides a case still pending, with verdict, maker, reason and time, and changes no other. |
| CertificationDecisions.ListingBegins | backend/auth/certificate_router.py:93-110 | A request to issue begins exactly when the pair has dossiers that are not rejected and all of them are approved. |
| CertificationDecisions.IssuerProceeds | backend/auth/certificate_router.py:110-140 | A dossier is checked off, or the request ends, by the issue check; the certificate is inserted exactly when all are checked off. |
| CertificationDecisions.NewerIs | backend/services/certification_decisions.py:164-172 | The query orders by creation, then by decision time with undecided rows last, then by id. |
| CertificationDecisions.IssueAllowedIs | backend/services/certification_decisions.py:299-310 | The check passes exactly when an approved row comes before all other rows of the submission and provider that are not cancelled. |
| CertificateLifecycle.CertificateStore.RevokeCert | backend/services/cert_lifecycle.py:55-101 | Refusals in the source's order, otherwise status, stripped reason, actor and time are written together. |
| CertificateLifecycle.CertificateStore.RevokeActiveCertsForBusiness | backend/services/cert_lifecycle.py:205-237 | Exactly the active certificates of that business and issuer flip and are counted; the call raises and rolls back exactly for a blank reason, or when there are some and the revoker is not the issuer. |
| CertificateLifecycle.CertificateStore.RevokeEach | backend/services/cert_lifecycle.py:229-237 | The loop revokes all rows found and counts them when the revoker is their issuer, and otherwise raises on the first. |
| CertificateLifecycle.RevokeOneMore | backend/services/cert_lifecycle.py:67-98 | One more row is refused exactly for a revoker who is not the issuer, and otherwise extends the revoked set by that row. |
| CertificateLifecycle.CertificateStore.UpdateCertStatus | backend/auth/certificate_router.py:480-523 | A status change is the specified request; a refusal changes nothing. |
| CertificateLifecycle.CertificateStore.DecideOnCertificates | backend/auth/audit_router.py:1720-1755 | A visit decision changes the certificates of the visit's business and provider as specified, and nothing when its audit record raises. |
| CertificateLifecycle.UnauditedDecisionChangesNothing | backend/auth/audit_router.py:1738-1755 | A decision to renew or suspend whose audit record raises, as it always does in the code as it stands, is rolled back. |
| CertificateLifecycle.DecisionChangesTableIff | backend/auth/audit_router.py:1738-1755 | A decision to renew or suspend changes the table exactly when it is audited and an unrevoked certificate of that business and provider has another status. |
| CertificateLifecycle.RevokeDecisionChangesTableIff | backend/auth/audit_router.py:1723-1738 | A decision to revoke changes the table exactly when the notes are not blank, the actor is the provider and there is an active certificate to revoke. |
| CertificateLifecycle.RevokeDecisionOfAnother | backend/services/cert_lifecycle.py:72-78 | A decision to revoke by anyone but the provider leaves an active certificate as it is. |
| CertificateLifecycle.StripIsNotBlank | backend/services/cert_lifecycle.py:67-68 | A reason that passes the blank check is still not blank after stripping. |
| CertificateLifecycle.StepKeepsConsistent | backend/auth/certificate_router.py:500-523 | Every request keeps the table consistent, keeps all rows, and changes no revoked one. |
| CertificateLifecycle.RevokedIffRecorded | backend/services/cert_lifecycle.py:82-98 | In every run a certificate is revoked exactly when its time, actor and non-blank reason are recorded, and otherwise none of them is. |
| CertificateLifecycle.RevocationIsFinal | backend/auth/certificate_router.py:400-410 | A revoked row never changes again and is never publicly valid again. |
| CertificateLifecycle.ValidIff | backend/auth/certificate_router.py:400-410 | Public verification says valid exactly for an active, unrevoked certificate that has not expired. |
| CertificateLifecycle.LateReactivationRevivesRevoked | backend/auth/certificate_router.py:517-523 | A status change that read its row before a revocation revives the revoked certificate. |
| CertificateLifecycle.LateStatusWriteIff | backend/auth/certificate_router.py:517-523 | A late status write keeps the table consistent exactly when the row is not revoked at that moment. |
| CertificateLifecycle.LateRevocationWriteIff | backend/services/cert_lifecycle.py:82-98 | A late revocation leaves recorded revocations alone exactly when the row is not revoked, or it repeats the record. |
| CertificateLifecycle.LateRevocationOverwritesRecord | backend/services/cert_lifecycle.py:67-98 | Of two revocations that read one unrevoked row, the second writes over the record of the first. |
| CertificateLifecycle.WriteKeepsRevokedRowIff | backend/services/cert_lifecycle.py:82-98 | Of all requests and late writes, just a late status write of a revoked row, or a late revocation of it with another record, changes the row. |
| CertificateLifecycle.RevokedUntilRewrittenIff | backend/auth/certificate_router.py:480-523 | In every interleaving a revoked row, record and all, stays as it is exactly until such a write. |
| CertificateLifecycle.ConsistentThroughoutIff | backend/auth/certificate_router.py:480-523 | Any interleaving keeps status and revocation record in agreement throughout exactly when every late status write finds its row unrevoked. |
| CertificateLifecycle.RevokeAnswers | backend/services/cert_lifecycle.py:67-80 | Which answer a revocation gets, in the order of the checks. |
| CertificateLifecycle.StatusChangeWrites | backend/auth/certificate_router.py:494-523 | Active or suspended is taken over exactly from the issuer for an unrevoked certificate; nothing else is written. |
| CertificateLifecycle.StatusChangeShows | backend/auth/certificate_router.py:378-410 | After a status change the certificate is publicly valid exactly when active was asked for and it has not expired. |
| CertificateLifecycle.RevocationWrites | backend/services/cert_lifecycle.py:67-98 | A revocation is written exactly for a reason that is not blank, by the issuer, for a certificate that shows none: status, stripped reason, time and revoker, and nothing else. |
| CertificateLifecycle.IssueWrites | backend/auth/certificate_router.py:117-250 | A new certificate is active and unrevoked under a fresh id; without its PDF it is deleted again. |
| CertificateLifecycle.DecisionWrites | backend/auth/audit_router.py:1720-1755 | What a visit decision writes to each certificate; those of others, and revoked ones, are left alone. |
| IdentityBinding.UserTable.FindBySubject | backend/auth/identity.py:77 | The subject lookup finds the bound row. |
| IdentityBinding.UserTable.MirrorClaims | backend/auth/identity.py:121-138 | The three conditional column updates leave the row with the claims' subject, status and owner flag, and every other row alone. |
| IdentityBinding.UserTable.RepairOwner | backend/auth/identity.py:140-141 | An owner's row ends as its own tenant; other rows are untouched. |
| IdentityBinding.UserTable.GetOrReconcile | backend/auth/identity.py:69-143 | Refusals, insert, link and repair add up to the specified answer and table. |
| IdentityBinding.PutKeepsInv | backend/auth/identity.py:100-117 | A row whose subject and email no other row has keeps both unique keys. |
| IdentityBinding.NewEmailIsFree | backend/auth/identity.py:78 | When the email lookup finds nothing, the lower-cased email is free. |
| IdentityBinding.StepKeepsInv | backend/auth/identity.py:70-143 | A reconciliation keeps subjects and emails unique and changes no row's email, role or existing binding. |
| IdentityBinding.ReturnedRow | backend/auth/identity.py:96-143 | The returned row is bound to the token's subject and mirrors its claims, an owner's row is its own tenant, and no other row changed. |
| IdentityBinding.RunKeepsBindings | backend/auth/identity.py:70-143 | In every run subjects name at most one row and a bound row never changes subject. |
| IdentityBinding.SameSubjectSameRow | backend/auth/identity.py:77-95 | Two successful reconciliations of one subject, any number of steps apart, return the same row. |
| IdentityBinding.RepeatWritesNothing | backend/auth/identity.py:118-143 | Repeating identical claims writes nothing; it is refused exactly when the email lookup returns a different row. |
| IdentityBinding.DisagreeIff | backend/auth/keycloak_validator.py:200-251 | Reconciliation of what enrichment hands on answers with another row than the one enrichment chose exactly when the subject is unbound, the chosen row is unbound and open, and its own stripped email is that of another unbound row, or of none and the row is an owner's. |
| IdentityBinding.AgreeOnceReconciled | backend/auth/keycloak_validator.py:200-251 | After a reconciliation of a subject the two never disagree on any token of it. |
| IdentityBinding.CaseVariantsDisagree | backend/alembic/versions/001_baseline.py:41 | Any two emails that differ in case alone, which the unique key admits, show the disagreement. |
| IdentityBinding.CaseVariantsExist | backend/alembic/versions/001_baseline.py:41 | There are such emails. |
| IdentityBinding.UntrimmedRowIsDoubled | backend/auth/identity.py:72 | A row whose stored email has a leading space is chosen by enrichment and doubled by reconciliation. |
| IdentityBinding.LateLinkKeepsBindingsIff | backend/auth/identity.py:121-138 | A late linking update keeps every binding exactly when its row is unbound or bound to the same subject. |
| IdentityBinding.RacingLinksTransferTheRow | backend/auth/identity.py:77-138 | Two subjects that read the same unbound row can both link it, the second taking it over. |
| IdentityBinding.WriteKeepsBindingIff | backend/auth/identity.py:100-138 | Reconciliations, late links and late inserts keep subjects and emails unique, and of all of them just a late link of the row, for a subject bound nowhere else, takes its binding away. |
| IdentityBinding.BoundUntilTakenOverIff | backend/auth/identity.py:100-138 | In every interleaving a row keeps its subject exactly until such a link. |
| IdentityBinding.OwnersAre | backend/auth/identity.py:29-47 | Owners are those whose claim says so in any of its spellings, or says nothing. |
| IdentityBinding.AnswerIs | backend/auth/identity.py:69-117 | Which answer a reconciliation gives, in the order of the checks, and which row it answers with. |
| IdentityBinding.AnsweredRowHolds | backend/auth/identity.py:96-143 | The row answered holds subject, status and ownership of the claims; a new row also email and role, an old one keeps its own; no other row changes. |
| IdentityBinding.RefusalKeepsUsers | backend/auth/identity.py:69-117 | Any other answer changes nothing. |
| IdentityBinding.LateStatementsWrite | backend/auth/identity.py:100-138 | What a late link and a late insert write: nothing when a unique key is taken. |
| IdentityBinding.EnrichedIs | backend/auth/keycloak_validator.py:200-251 | Enrichment chooses the row bound to the subject, or an unbound one found by email, if it is open and the lookups do not clash. |
| AccountDeletion.BuildCaseItems | backend/app.py:1257-1295 | The loop builds one item for each positive reference count, with the policy, risk and initial status of its key. |
| AccountDeletion.CaseRiskLevel | backend/app.py:1248-1254 | The case risk is the highest among the items, and low for an empty case. |
| AccountDeletion.BuiltFromPolicy | backend/app.py:1257-1295 | Every built item carries the policy of its key and stands for references that exist. |
| AccountDeletion.BuiltKeysAreDistinct | backend/app.py:1257-1295 | A case has one item for each key. |
| AccountDeletion.UnknownReferencesAreBlocked | backend/app.py:1269-1283 | A reference without a policy is blocked for manual review, and no execution acts on it. |
| AccountDeletion.SweptFiles | backend/app.py:1627-1647 | After the scan a file is gone exactly when a scanned document row of the user points to it, it lies under the upload root and can be unlinked. |
| AccountDeletion.SweptRows | backend/app.py:1643-1655 | Cleared rows are document rows of the user whose file is gone, one row for each file. |
| AccountDeletion.NoPathDanglesIff | backend/app.py:1627-1655 | A cleanup leaves no row, of whatever user, with the path of a file it removed exactly when its final update does not fail and each file that goes is referred to by one row only, whose path is free to change. |
| AccountDeletion.SharedFileLeavesADanglingPath | backend/app.py:1638-1655 | Of two rows pointing to one file only the first scanned loses its path. |
| AccountDeletion.SecondCleanupDoesNothing | backend/app.py:1604-1655 | A second cleanup finds no file of the first and writes no row. |
| AccountDeletion.AttachedUploadLosesItsFile | backend/alembic/versions/055_dossier_document_attachments.py:96-113 | An upload attached to a dossier loses its file and keeps its path: the item fails, and completes when executed again. |
| AccountDeletion.DeletionCase.constructor | backend/app.py:1310-1313 | A case with a blocked item starts blocked, any other ready. |
| AccountDeletion.DeletionCase.CleanupUploadedFiles | backend/app.py:1604-1655 | The loop unlinks the specified files and clears the specified rows, or leaves the rows when that update fails. |
| AccountDeletion.DeletionCase.PerformAction | backend/app.py:1411-1443 | One item's statements have the specified effect and raise exactly on the specified faults. |
| AccountDeletion.DeletionCase.ExecuteItem | backend/app.py:1381-1466 | One turn of the loop gives the item's outcome and what it adds to the counters. |
| AccountDeletion.DeletionCase.Execute | backend/app.py:1363-1499 | A run without a missing identity is refused and leaves the case running; otherwise items, data, counters and case status are the specified ones. |
| AccountDeletion.CountersSumToItemsIff | backend/app.py:1380-1478 | The four counters add up to the number of items exactly when no item's outcome failed to be recorded. |
| AccountDeletion.FailedCaseReflectsItems | backend/app.py:1467-1478 | It is failed exactly when an item failed and nothing was done or settled. |
| AccountDeletion.UnrecordedCompletionCountsTwice | backend/app.py:1444-1466 | A single item, done and not recorded, is counted as completed and as failed. |
| AccountDeletion.CaseStatusReflectsItems | backend/app.py:1467-1478 | The case is completed exactly when every item ended completed or skipped; blocked and partially completed are characterised likewise. |
| AccountDeletion.CompletedItemsStay | backend/app.py:1384-1386 | A completed item stays as it is and is never executed again, over any number of retries. |
| AccountDeletion.CompletesAtMostOnce | backend/app.py:1384-1386 | Of attempts that follow one another at most one executes an item to completion; overlapping attempts have rows of their own. |
| AccountDeletion.OverlappingRunExecutesAgainIff | backend/app.py:1877-1898 | A second run executes an item again exactly when it loaded the items before the first had recorded the item's completion. |
| AccountDeletion.ExecutingAgainIsHarmless | backend/app.py:1419-1431 | Executing an item again at once changes no data whatever fails, and without a fault of its own it does not fail. |
| AccountDeletion.CompletionStandsIff | backend/app.py:1384-1466 | Over any steps of any number of overlapping runs a recorded completion stands exactly until a run that loaded the item before it starts the item again or records another outcome. |
| AccountDeletion.CompletionCanBeLostIff | backend/app.py:1384-1466 | A recorded completion can still be lost exactly when a run is at work that loaded the item uncompleted. |
| AccountDeletion.LateFailureUndoesCompletion | backend/app.py:1411-1466 | Of two runs that loaded one pending item the first completes it and the second records a failure over it; a third run loads the failure and completes the item again. |
| AccountDeletion.SafeChangeIsTransitive | backend/app.py:1419-1431 | The permitted changes of data compose. |
| AccountDeletion.PerformIsSafe | backend/app.py:1185-1231 | Executing one item of a built case changes data only as permitted. |
| AccountDeletion.RetriesAreSafe | backend/app.py:1363-1499 | Over any retries with any faults only the user's notifications and push subscriptions disappear, four nullable references to the user become NULL, and document rows of the user lose their file. |
| AccountDeletion.AuditLogsAndOthersUntouched | backend/app.py:1221-1225 | Audit log rows, and rows that do not reference the user, are never written. |
| AccountDeletion.FilesLostAreOwnUploads | backend/app.py:1630-1643 | An execution unlinks only files under the upload root that a document row of the user points to. |
| AccountDeletion.RevokerItemFailsIff | backend/alembic/versions/011_cert_lifecycle.py:44-48 | The item that detaches revokers fails exactly by a fault, or when the user is the revoker of a revoked certificate, and completes otherwise. |
| AccountDeletion.RevokerDecidesCompletionIff | backend/app.py:1467-1478 | When every other item ends well and that item meets no fault, the case completes exactly when the user is the revoker of no revoked certificate. |
| AccountDeletion.RevokerItemCompletesIff | backend/app.py:1363-1499 | After any retries of which the last could run undisturbed, that item is completed exactly when the user was the revoker of no revoked certificate to begin with. |
| AccountDeletion.RevokedCertificateFailsItsCase | backend/alembic/versions/011_cert_lifecycle.py:44-48 | One certificate the user revoked and the case built for it: the run ends with a failed case and all data as it was. |
| AccountDeletion.RevokedCertificateKeepsTheCaseOpen | backend/app.py:1206-1210 | With such a certificate the item never completes, however often and under whatever faults the case is retried, and the certificate keeps its revoker. |
| AccountDeletion.CertificatesRevokedIsThatItem | backend/app.py:1206-1210 | The item built for revoked certificates is that item. |
| AccountDeletion.PolicyTable | backend/app.py:1185-1231 | What is done with the references of each key and how risky that is; a key without a policy waits for an administrator. |
| AccountDeletion.TargetTable | backend/app.py:1115-1140 | The table and column each executed action goes to. |
| AccountDeletion.OtherTargets | backend/app.py:1115-1140 | The table and column of the references that wait for an administrator or are kept. |
| AccountDeletion.MoreTargets | backend/app.py:1123-1125 | The same for certificates issued, audit logs and tenant members. |
| AccountDeletion.AuditTargets | backend/app.py:1128-1133 | The same for visits, NCRs and invitations. |
| AccountDeletion.OverlapStepWrites | backend/app.py:1381-1466 | What each statement of an overlapping run does: loading notes the recorded status; a run that did not load a completion writes running, and then its outcome. |
| AccountDeletion.BuiltItems | backend/app.py:1257-1295 | A case has an item exactly for each reference that exists, with policy, target and initial status. |
| AccountDeletion.RisksAscend | backend/app.py:1248-1254 | The order of the risks. |
| AccountDeletion.OutcomeIs | backend/app.py:1381-1466 | When an item ends failed, completed, skipped or blocked, by its status, its action, the fault and the rows its constraint protects. |
| AccountDeletion.CompletedDeleteTookEffect | backend/app.py:1422-1424 | A deletion that completes takes exactly the rows that reference the user in the target's column. |
| AccountDeletion.CompletedDetachTookEffect | backend/app.py:1427-1430 | A detach that completes keeps all rows and takes exactly that reference out of those that have it. |
| AccountDeletion.CompletedCleanupTookEffect | backend/app.py:1604-1655 | A removal of uploads that completes unlinks exactly the files scanned rows of the user point to, and clears path and size of a row of each. |
| AccountDeletion.FailedItemKeepsRows | backend/app.py:1454-1466 | An item whose own statements fail writes no row; it may have unlinked files if that was its action. |
| AccountDeletion.PointsToIff | backend/app.py:1627-1645 | Which files a cleanup may remove: regular files under the upload root that a document row of the user points to. |
| AccountDeletion.TurnAdds | backend/app.py:1380-1466 | The counters start at zero, and each turn adds one to the counter of what the item came to, and one to the failed ones if it failed. |
| AccountDeletion.CompletedItemLeavesNoReference | backend/app.py:1419-1431 | An item deleted or detached to completion has no reference left when the run ends, whatever the later items do. |
| AccountDeletion.CompletedMeansNoReference | backend/app.py:1363-1499 | Over any retries with any faults, once such an item is recorded as completed no row references the user by it. |
| TeamRemoval.StepKeepsInv | backend/auth/team_account_removal.py:28-58 | In every interleaving the row is gone only with the identity, and no blocking reference appears between probe and deletion. |
| TeamRemoval.FinalDeleteFailsIff | backend/auth/team_account_removal.py:39-58 | After a successful probe the final deletion fails exactly when a cascading dependent has come to be held. |
| TeamRemoval.StepAgreesIff | backend/auth/team_account_removal.py:28-58 | A step keeps the identities in agreement exactly when it is not a lost reply, a crash after the Keycloak call, or a final deletion that meets a held dependent. |
| TeamRemoval.RunKeepsInv | backend/auth/team_account_removal.py:28-58 | Every run keeps the invariant. |
| TeamRemoval.RowGoneMeansIdentityGone | backend/auth/team_account_removal.py:56-58 | The database row is never gone while the identity remains. |
| TeamRemoval.CleanRunsAgree | backend/auth/team_account_removal.py:28-58 | In every run without such a step both identities are gone or both intact whenever no removal is under way. |
| TeamRemoval.SpoiledRunsDisagree | backend/auth/team_account_removal.py:28-58 | Each such step ends with the row intact and the identity gone. |
| TeamRemoval.HoldAfterTheProbeParts | backend/auth/team_account_removal.py:39-58 | A document held after the probe makes the final deletion fail after the identity is deleted. |
| TeamRemoval.RetryHeals | backend/auth/keycloak_admin.py:367-380 | An undisturbed retry deletes what is left, since Keycloak takes a missing user for success. |
| TeamRemoval.Accounts.DeleteUser | backend/auth/team_account_removal.py:41 | The DELETE raises and changes nothing when a dependent stops it, and cascades otherwise. |
| TeamRemoval.Accounts.RemoveTeamAccount | backend/auth/team_account_removal.py:28-58 | Undisturbed, the removal answers and ends as specified: both gone or both intact, unless Keycloak's reply is lost. |
| TeamRemoval.DeletableIff | backend/auth/team_account_removal.py:34-47 | A deletion is stopped exactly by a blocking dependent or a cascading one that something holds; a detaching one never stops it. |
| TeamRemoval.EnabledIff | backend/auth/team_account_removal.py:28-58 | When each step can happen: the row lock makes new references wait, but nobody is kept from referring to a dependent. |
| TeamRemoval.OtherSessionsSteps | backend/auth/team_account_removal.py:28-58 | What other sessions do: refer, give up a reference, hold or release one dependent, and nothing else. |
| TeamRemoval.RemovalSteps | backend/auth/team_account_removal.py:28-58 | What lock, probe, Keycloak call, final deletion, commit and crash do to the row, the identity and the dependents. |
| VisitFreeze.InsertedItems | backend/auth/audit_router.py:1046-1061 | The items inserted from a template are blank items with the template's questions, and no other item changes. |
| VisitFreeze.OtherVisitsKept | backend/auth/audit_router.py:156-176 | A request leaves the row, items and NCRs of every other visit alone. |
| VisitFreeze.FrozenVisitKept | backend/auth/audit_router.py:174-175 | An admitted request on a submitted visit leaves all its evidence alone; at most it accepts the report. |
| VisitFreeze.StepKeepsInv | backend/auth/audit_router.py:149-176 | What a lock holder checked stays true under every step of every other session. |
| VisitFreeze.RunKeepsInv | backend/auth/audit_router.py:149-176 | In every interleaving the checks of a request still hold when it commits. |
| VisitFreeze.StepKeepsFrozen | backend/auth/audit_router.py:149-176 | No step changes the evidence of a submitted visit or takes it out of the final states. |
| VisitFreeze.EvidenceIsFrozen | backend/auth/audit_router.py:156-176 | In every interleaving, once a visit is submitted its items, score, report, signatures, GPS, assignment, and the set, description, severity and deadline of its NCRs never change; an accepted row never changes at all. |
| VisitFreeze.AcceptedOnlyFromSubmitted | backend/auth/audit_router.py:988-1013 | A visit becomes accepted only by its owner accepting a submitted report. |
| VisitFreeze.SubmittedByAssignedAuditor | backend/auth/audit_router.py:927-951 | A report is submitted only by the auditor assigned at that moment, with a PDF or from a completed visit. |
| VisitFreeze.DeletedOnlyWhenScheduled | backend/auth/audit_router.py:849-862 | A visit disappears only while scheduled, at the hands of its owner. |
| VisitFreeze.ScoresStayInRange | backend/alembic/versions/005_onsite_audits.py:49 | In every run stored scores lie in 0..100. |
| VisitFreeze.LateItemUpdateWouldThaw | backend/auth/audit_router.py:149-176 | Without the lock an item result checked before the submission and written after it would change the evidence. |
| VisitFreeze.SerialRunsAreHandled | backend/auth/audit_router.py:149-176 | Requests that do not overlap leave the database as if handled one after another. |
| VisitFreeze.CompletionStoresItsScore | backend/auth/audit_router.py:963-969 | Completing a visit stores the score of its checklist unless that is empty, and leaves the results alone. |
| VisitFreeze.StoredScoreStays | backend/auth/audit_router.py:927-971 | In every interleaving the stored score changes only by completing, reporting or deleting the visit. |
| VisitFreeze.ResultsStay | backend/auth/audit_router.py:1027-1160 | In every interleaving the results of a visit change only by requests that write its items. |
| VisitFreeze.ReportIsCurrentByStoredScore | backend/auth/audit_router.py:1425 | An admitted report writes the current score of its checklist exactly under the condition on the stored score. |
| VisitFreeze.ReportIsCurrentSinceCompletionIff | backend/auth/audit_router.py:1425 | After any interleaving since the score was stored, a report is current exactly when the checklist then and now come to one score, or, for a stored zero, answered and applicable items do; always when no item was written. |
| VisitFreeze.StaleScoreIsReported | backend/auth/audit_router.py:1130-1156 | Complete, change the one item to a major non-conformity, submit: the report shows 100 for a checklist that comes to 0. |
| VisitFreeze.AuditStore.RequireVisitAccess | backend/auth/audit_router.py:162-176 | The access check accepts exactly the visits in the actor's scope that meet the mutability and assignment demands. |
| VisitFreeze.AuditStore.ChecklistScore | backend/auth/audit_router.py:963-969 | The completion score of the visit's items, none for an empty checklist. |
| VisitFreeze.AuditStore.UpdateVisitStatus | backend/auth/audit_router.py:927-971 | A status change is the specified request, score included. |
| VisitFreeze.AuditStore.AcceptSubmittedReport | backend/auth/audit_router.py:975-1022 | Acceptance is the specified request. |
| VisitFreeze.AuditStore.PopulateChecklist | backend/auth/audit_router.py:1027-1061 | Replacing the checklist by the template's items, row by row, is the specified request. |
| VisitFreeze.AuditStore.ReportedScore | backend/auth/audit_router.py:1418-1425 | The score shown by a report: the stored one, or recomputed where none or zero is stored. |
| VisitFreeze.AuditStore.GenerateVisitReport | backend/auth/audit_router.py:1306-1608 | Generating a report is the specified request. |
| VisitFreeze.AuditStore.UpdateNonConformity | backend/auth/audit_router.py:1244-1266 | Updating an NCR is the specified request: core fields insist on an unsubmitted visit, status and corrective action do not. |
| VisitFreeze.AdmittedIff | backend/auth/audit_router.py:162-176 | Which requests are admitted, by actor, request and status of the visit. |
| VisitFreeze.RefusedPopulateKeepsAll | backend/auth/audit_router.py:1035-1045 | Replacing a checklist is refused without a template, when an NCR points at an item of the visit, and for taken ids, and then changes nothing. |
| VisitFreeze.PopulateReplaces | backend/auth/audit_router.py:1043-1061 | Otherwise the visit's items afterwards are the template's, all blank; the old ones are gone and other visits' items are as they were. |
| VisitFreeze.StatusAnswers | backend/auth/audit_router.py:927-971 | A status is taken over exactly when visit and status are open ones, or its auditor submits a completed visit; completing a visit with items scores it; nothing else changes. |
| VisitFreeze.AcceptAnswers | backend/auth/audit_router.py:975-1022 | The owner accepts exactly a submitted report, on record with the owner's user. |
| VisitFreeze.UpdateAndAssignAnswer | backend/auth/audit_router.py:813-925 | An update of a visit writes the fields given and no other; an assignment takes effect for a cleared auditor. |
| VisitFreeze.ReportSignatureGpsAnswer | backend/auth/audit_router.py:1592-1826 | A report is stored with its score and submits the visit; a signature and a GPS record go into the field they are for; nothing else changes. |
| VisitFreeze.DeleteAnswers | backend/auth/audit_router.py:849-864 | Deleting takes row, items and NCRs, exactly of a scheduled visit whose items no other visit's NCR points at. |
| VisitFreeze.FollowUpAnswers | backend/auth/audit_router.py:1959-1988 | A follow-up is a new scheduled visit of the same parties and template; the old one stays as it is. |
| VisitFreeze.ItemRequestsWriteOneItem | backend/auth/audit_router.py:1096-1190 | Requests on one item write no row, no NCR, no other item, and nothing of another visit. |
| VisitFreeze.AddAndDeleteItem | backend/auth/audit_router.py:1096-1128 | An added item is blank; an item is deleted exactly when it is the visit's own and no NCR points at it. |
| VisitFreeze.UpdateItemAnswers | backend/auth/audit_router.py:1130-1190 | An update writes the result and remarks that are given and nothing else; a photo is added at the end. |
| VisitFreeze.NcrRequestsWriteOneNcr | backend/auth/audit_router.py:1224-1300 | Requests on one NCR write no row, no item, no other NCR, and nothing of another visit. |
| VisitFreeze.CreateNcrAnswers | backend/auth/audit_router.py:1224-1240 | A new NCR is open, without photos and evidence. |
| VisitFreeze.NcrAnswers | backend/auth/audit_router.py:1244-1300 | An update writes the fields given and no other, an empty deadline not clearing the old one; a photo is added at the end; a verification closes the NCR on record of the user, or reopens it. |
| VisitFreeze.StepAnswers | backend/auth/audit_router.py:149-176 | A commit writes what its request writes and gives up the lock; a beginning request takes a free lock; neither it nor an abort writes anything. |
| VisitFreeze.CreateVisitAnswers | backend/auth/audit_router.py:693-725 | A new visit is scheduled and unassigned. |
| VisitFreeze.EvidenceAnswers | backend/auth/audit_router.py:1862-1915 | Evidence is added at the end by the business of the NCR's visit, and puts the NCR under review. |
| Scores.RoundIsTheRounded | backend/auth/audit_router.py:968 | Rounding gives the nearest integer and the even one of two, and nothing else does. |
| Scores.RoundIsMonotone | backend/auth/audit_router.py:968 | Rounding is monotone. |
| Scores.RoundKeepsIntegers | backend/auth/audit_router.py:968 | Rounding keeps integers. |
| Scores.ApplicableCount | backend/auth/audit_router.py:1418-1424 | All items less those marked not applicable are the applicable ones. |
| Scores.PercentBounds | backend/auth/audit_router.py:968 | A share of a smaller whole is the larger percentage, both within 0..100. |
| Scores.ScoresCompare | backend/auth/audit_router.py:963-969 | Both scores lie in 0..100, the report's recomputed score never exceeds the completion score, and they agree when every applicable item is answered. |
| Scores.ReportIsCurrentIff | backend/auth/audit_router.py:1425 | The report's score is the completion score of its checklist exactly when the stored score is, or, with none or zero stored, when answered and applicable items come to one percentage; a stored completion score is repeated, zero included. |
| Scores.CompositeIsBetween | backend/auth/audit_router.py:480-487 | The 40/60 composite lies between its components and grows with each. |
| Scores.PercentIs | backend/auth/audit_router.py:968 | A score is the integer nearest to 100 * part / whole, of two the even one, stated in integers. |
| Scores.ScoresCount | backend/auth/audit_router.py:963-969 | The counts behind the scores, by the results: unanswered items count in the report alone, not-applicable ones nowhere; a stored score of zero counts as none. |
| Scores.CompositeIs | backend/auth/audit_router.py:480-487 | The composite is four tenths documents and six tenths audits, to the nearest integer; a single component stands alone. |
| Strings.StripSpec | backend/auth/offline_replay_idempotency.py:164-168 | Stripping cuts off ASCII white space at both ends, all of it and nothing else. |
| Strings.LowerSpells | backend/auth/offline_replay_idempotency.py:177 | Lower-casing a key gives a word exactly when the key spells it up to ASCII capitals and the Kelvin sign. |

## Left out

- LLM calls, embeddings, vector search, PDF, DOCX and QR rendering, mail, push, blockchain anchoring: foreign code; where an outcome matters it is an input.
- `services/merkle.py`, `submission_revisions`, `document_library`, `document_ingestion`, `dossier_*`: not part of this model.
- The submission status matrix: `assign_auditor` writes `assigned` without consulting it, so it is no invariant of the code.
- At most one active certificate per business and issuer: the code does not keep it, a suspended certificate can be reactivated after a new one is issued.
- Expiry alerts, dashboards, statistics, CRUD of templates and settings, feature flags, permissions: decided by reading one branch or query.
- Non-ASCII white space and letter case in emails, reasons and keys: strings are stripped and lower-cased as ASCII, with the one non-ASCII character whose lower case is an ASCII letter; the database's `lower` is taken to agree.
- Floating-point error in scores and ranks: quotients and sums are exact reals. The three-decimal rounding of displayed search scores is not modelled.
- Non-finite JSON numbers, and number formatting: a number is kept as the text the writer produces.
- `Chunking.SlidingWindowChunks`: requires the overlap to be below the chunk size, since otherwise the source's loop never ends.
- `RateLimiting.WindowNeverExceedsLimit`: is about one limit and window per key and a clock that does not run backwards; the call sites use fixed pairs.
- `CertificationDecisions.IssueCheckIffApproved`: assumes strictly increasing creation times of one submission's cases; `IssueCheckFindsApprovalIff` has the exact condition. No route writes the status `cancelled`.
- Numbering, QR files and PDF storage of a certificate: `Issue` keeps whether the PDF was written, since the row is deleted again otherwise.
- `get_versions` and the current-version selections of documents: read-only, or a separate table.
- Document retention dates, file paths and audit rows of the approval routes: no part in the chain properties.
- `IdentityBinding.UserTable.GetOrReconcile`: the branch for tokens not issued by Keycloak is one lookup by id; company name and NULL owner flags are not kept (a NULL flag reads as false).
- `AccountDeletion.DeletionCase.Execute`: overlapping runs are modelled item by item, by what they load and the statuses they write; a crash of the executor between items, and a failure of the updates that record skipped, blocked or failed items, end the run early and are not modelled; the copy of the case status on the user row is not kept.
- Directories, symbolic links and raised errors of the file system: `resolve` is any function, a path that is no regular file is left alone.
- `TeamRemoval`: the single statements of the probe run as one step, since their locks are given up with the savepoint; Keycloak deletes the identity at once or not at all.
- `VisitFreeze.AuditStore`: the five writers with the most branching are methods; the other writers change one row and are specified by the same function without a method of their own. Severity and result values outside their lists are refused by type.
- Files written by signature, photo and report uploads: file contents are not part of the database state that is frozen.
- Notifications, audit log rows and labels sent by the routes.
- Creating an activation request: one step, its check for a pending one and its insert not separated.
- The module routes' error codes for several missing dependencies at once: the refusal is kept, the name of the first module in it is not.
- Where the idempotency key of a request is read from (header, body, payload, in that order): the first that is not blank.
- Side effects of a replayed mutation outside its database transaction.
