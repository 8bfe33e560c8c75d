# Verified model of the FinChippay payment front end and its monitoring scripts

This project models, in Dafny, the parts of FinChippay that hold algorithmic state, and proves what
they promise over all inputs and all runs:

- **BatchForm, BatchRuns, BatchMoney** - the batch payment form: rows, the send/retry pass, whole
  runs of edits, imports and passes, edits that come in while a pass awaits the network, totals
  against balances, distribution of a group amount, and the summary panel.
- **Builder** - the drag-and-drop builder: undo/redo reducer and keyboard reordering.
- **MultiSig** - the multi-signature flow as a state machine whose handlers are suspended at their
  awaits, so that every other click can come in between.
- **Redaction** - removal of Stellar secret keys from error messages.
- **Canary, CanaryMonitor** - the canary metrics, the health verdict, the monitor loop and its exit
  codes.
- **ZkProof** - amount commitments, Merkle folding and proof serialisation over an arbitrary hash.
- **Highlight** - splitting a text into plain and highlighted parts.
- **Webhooks** - the soft-delete webhook table.
- **Options, Lists, Sorting** - optional values; order-preserving filters; the stable sort and order
  statistics the others use.

Build, sign, submit, the clock, random ids, the hash function, `parseFloat` and the HTTP endpoint are
parameters: statements hold for every behaviour of theirs. Amounts and rates are exact rationals and
`toFixed(7)` rounds to whole stroops (section 21.1.3.3 of ECMA-262). Loops and updated objects of the
source are loops and classes here; each such method is tied to a function of its inputs or old state,
and the run theorems are lemmas about that function.

Where the code falls short of what its texts promise, the model follows the code; there is a lemma
with an input that shows it, and one with the exact condition:

- An accepted payment can go unreported in two ways: the success callback runs inside the same `try`
  as the submission and may throw, and the submit call passes on every transport error
  (frontend/lib/stellar.ts:914-927), so it may fail after the network took the transaction. Either
  way the paid row is marked failed, and a retry pays it again: `BatchRuns.UnreportedPaymentIsRepeated`.
  Each row is paid at most once on every run if and only if neither can happen (or nothing can be
  paid): `BatchRuns.AtMostOnceIffPaymentsReported`. Edits during a pass do no harm:
  `BatchRuns.PassIsAtomic`.
- "Start over" during a pending wallet signature leaves the signing pending. If the signature then
  arrives, the flow is past signing without a transaction: nothing wrong is ever submitted, but no
  action leads out. `MultiSig.DeadEndIsReachable` is such a run; it is the only way to get stuck:
  `MultiSig.DeadEndIffLateSignature`, `MultiSig.CompletableIffNotDeadEnd`.
- The summary panel and the totals that gate the Send button agree exactly when no counted recipient
  has an empty token code (`BatchMoney.SummaryAgreesIffCodesNonEmpty`); dropping such a token makes
  them differ (`BatchMoney.EmptyTokenSplitsTotals`).
- After a retry, "Batch payment complete." is shown beside waiting rows if any row was waiting:
  `BatchForm.RetryCompleteIgnoresIdleRows`, `BatchRuns.CompleteBesideIdleRow`.
- The canary reports "consecutive" failures for any three failing checks of the last five, for example
  the first, third and fifth (`CanaryMonitor.ScatteredFailuresAreCritical`). When it does, they are
  consecutive exactly if no healthy check lies between two of them:
  `CanaryMonitor.ReportedFailuresAreConsecutiveIff`.
- The canary's 5xx rate checks never fire on real endpoint checks, because an error status reaches
  the collector as status 0: `CanaryMonitor.RateChecksNeverFireEndToEnd`.
- A payment proof is accepted for a minimum amount whatever amount it commits to: verification checks
  the hash of the minimum and a path, never the amount (`ZkProof.CreatePaymentProof`). Without a fixed
  path length an inner node passes for a commitment (`ZkProof.InnerNodeIsAccepted`).

## Model

| member | source | states |
|---|---|---|
| `BatchForm.ProcessRows` | frontend/components/BatchPaymentForm.tsx:355-414 | the loop that changes copied rows one by one yields the row-wise result, exactly the accepted payments in row order, and the right message |
| `BatchForm.Attempt` | frontend/components/BatchPaymentForm.tsx:370-407 | one validated row ends success exactly when submission and callback returned, otherwise failed with an error; payee and amount stay; a hash is recorded exactly when the submission returned; the payment is made exactly when the network accepted it |
| `BatchForm.RowSucceedsIff` | frontend/components/BatchPaymentForm.tsx:346-409 | a row taken up by a pass ends success exactly when its address is valid and foreign, its amount finite and positive, it is native or has a non-empty issuer, and submission and callback return; otherwise it ends failed; every other row stays |
| `BatchForm.RefusedRowShowsFirstProblem` | frontend/components/BatchPaymentForm.tsx:346-369 | a row that cannot be sent shows the error of the first of the four tests it fails |
| `BatchForm.SentRowShowsOutcome` | frontend/components/BatchPaymentForm.tsx:370-407 | a row that can be sent shows the message of what stopped it, or that signing was rejected when there is none, and the hash if the submit call returned one |
| `BatchForm.SendSettlesEveryRow` | frontend/components/BatchPaymentForm.tsx:355-416 | a full pass ends with every row success or failed, same ids, order and payment fields; success is new exactly for rows that can be sent and whose submission and callback returned |
| `BatchForm.RetryTouchesFailedOnly` | frontend/components/BatchPaymentForm.tsx:360-362 | a retry pass changes failed rows only and settles each of them |
| `BatchForm.CompleteIffAllSucceeded` | frontend/components/BatchPaymentForm.tsx:410-413 | after a full pass "complete" is shown exactly when every row succeeded |
| `BatchForm.RetryCompleteIgnoresIdleRows` | frontend/components/BatchPaymentForm.tsx:410-413 | after a retry that shows "complete", all rows succeeded if and only if none was still waiting |
| `BatchForm.PaymentsAreThoseOfAcceptedRows` | frontend/components/BatchPaymentForm.tsx:360-400 | the payments of a pass are, one for one and in list order, those of the rows it takes up, that can be sent and that the network accepts, each with the address, asset and rounded amount of its row |
| `BatchForm.PaymentsComeFromRows` | frontend/components/BatchPaymentForm.tsx:360-400 | the payments of a pass are exactly those of the rows it takes up, finds valid and gets accepted |
| `BatchForm.PaidInDisplayedAsset` | frontend/components/BatchPaymentForm.tsx:374-381 | for consistent tokens the asset sent is the one displayed; the fallback to XLM is never reached |
| `BatchRuns.RowsArePaidAtMostOnce` | frontend/components/BatchPaymentForm.tsx:355-417 | over every run with fresh ids that reports each accepted payment, whatever is edited during its passes: at most one payment per row id, success exactly when paid, none pending between passes, at most ten rows |
| `BatchRuns.ActKeepsInv` | frontend/components/BatchPaymentForm.tsx:290-417 | every handler and both passes keep the invariant of ids, payments, statuses and tokens |
| `BatchRuns.EditKeepsInv` | frontend/components/BatchPaymentForm.tsx:290-344 | imports, group selection and all row edits keep the invariant: they pay nothing and create only fresh idle rows |
| `BatchRuns.AddAppendsEmptyRow` | frontend/components/BatchPaymentForm.tsx:296-300 | adding appends an empty row below ten rows and otherwise does nothing |
| `BatchRuns.EditReachesItsRow` | frontend/components/BatchPaymentForm.tsx:290-294 | an edit sets the given fields of the rows with its id and nothing else |
| `BatchRuns.SelectionStoresToken` | frontend/components/BatchPaymentForm.tsx:234-247 | which code, kind and issuer a token selection stores, and that it touches the token of that row only |
| `BatchRuns.CatalogueFillsIssuers` | frontend/components/BatchPaymentForm.tsx:97-123 | the loaded catalogue fills in the issuer of custom rows without one, from its first entry with their code, and changes nothing else |
| `BatchRuns.ImportTakesFirstTen` | frontend/components/BatchPaymentForm.tsx:145-160 | an import lists the first ten valid rows with recipient and amount, in order, with their fields; it does nothing when there are none |
| `BatchRuns.GroupGivesOneRowEach` | frontend/components/BatchPaymentForm.tsx:307-326 | a group lists one new row for each of its first ten contacts, in order, and an empty one behind fewer than ten |
| `BatchRuns.PassKeepsAtMostOnce` | frontend/components/BatchPaymentForm.tsx:360-400 | a pass pays distinct rows, and only rows not paid before, even when payments go unreported |
| `BatchRuns.PassIsAtomic` | frontend/components/BatchPaymentForm.tsx:355-409 | edits that come in while any row of a pass is pending - group selection, import, amounts, removal - reach neither its rows nor its payments: the list the pass leaves is that of an uninterrupted pass |
| `BatchRuns.PassKeepsRowInv` | frontend/components/BatchPaymentForm.tsx:396-400 | after a pass that reports every accepted payment a row is success exactly when it has one |
| `BatchRuns.UnreportedPaymentIsRepeated` | frontend/components/BatchPaymentForm.tsx:396-407 | every payable row whose accepted payment goes unreported - the callback throws or the response is lost - is paid the same amount again by a retry |
| `BatchRuns.AtMostOnceIffPaymentsReported` | frontend/components/BatchPaymentForm.tsx:396-407 | all runs pay each row at most once if and only if neither callbacks throw nor responses of accepted submissions get lost, or no row can be paid |
| `BatchRuns.CompleteBesideIdleRow` | frontend/components/BatchPaymentForm.tsx:410-413 | a run whose retry leaves no row failed, hence shows "complete", beside a row that still waits |
| `BatchRuns.AddBeforeRetryIsProper` | frontend/components/BatchPaymentForm.tsx:296-300 | that run has fresh ids and reports every accepted payment |
| `BatchRuns.TokensStayConsistent` | frontend/components/BatchPaymentForm.tsx:234-247 | on every run exactly the XLM rows are of the native kind, through token selection, catalogue loading, imports and groups |
| `BatchRuns.WithoutRowKeepsRest` | frontend/components/BatchPaymentForm.tsx:302-305 | removing an id keeps exactly the rows with other ids, in their order, and distinctness |
| `BatchMoney.TotalByToken` | frontend/components/BatchPaymentForm.tsx:249-259 | the dictionary holds exactly the codes of rows with a positive finite amount, each with the sum of those amounts |
| `BatchMoney.EntriesAreThoseOfPositiveRows` | frontend/components/BatchPaymentForm.tsx:249-259 | what is summed are, in order, the amounts of exactly the rows whose amount is finite and positive |
| `BatchMoney.PaymentMatchesItsRow` | frontend/components/BatchPaymentForm.tsx:374-388 | every accepted payment goes to the valid, foreign address of a listed row, in its token, for its positive amount rounded to the nearest stroop, ties up |
| `BatchMoney.PassPaysAtMostTotal` | frontend/components/BatchPaymentForm.tsx:355-400 | per token any pass pays at most the displayed total plus half a stroop per payment |
| `BatchMoney.WholeStroopsPayAtMostTotal` | frontend/components/BatchPaymentForm.tsx:385 | with amounts in whole stroops any pass pays at most the displayed total |
| `BatchMoney.GateIsOnIff` | frontend/components/BatchPaymentForm.tsx:284-288 | Send is disabled by the balance gate if and only if some displayed token has no balance entry or a readable balance below its total; every displayed total is positive |
| `BatchMoney.SendStaysWithinBalance` | frontend/components/BatchPaymentForm.tsx:284-288 | in every run, when a Send is not disabled by the gate, every displayed token has a balance, the stroops paid per token are at most a readable one (plus half a stroop per payment when amounts are finer than stroops), and nothing is paid in a token without total |
| `BatchMoney.RoundingError` | frontend/components/BatchPaymentForm.tsx:385 | `toFixed(7)` is the nearest stroop, ties to the larger, exact on whole stroops |
| `BatchMoney.ApplyTouchesAmountsOnly` | frontend/components/BatchPaymentForm.tsx:328-344 | applying a group amount changes nothing but the amounts of addressed rows, and nothing at all for an unusable amount or no group |
| `BatchMoney.AppliedAmounts` | frontend/components/BatchPaymentForm.tsx:334-343 | each addressed row gets the typed amount, or in total mode the amount divided by the number of addressed rows with seven decimals |
| `BatchMoney.PerRecipientIsExact` | frontend/components/BatchPaymentForm.tsx:334-337 | per-recipient mode distributes exactly n times the amount |
| `BatchMoney.TotalGivesEqualShares` | frontend/components/BatchPaymentForm.tsx:338-343 | total mode gives every addressed row the same rounded n-th part |
| `BatchMoney.TotalIsSplitWithinRounding` | frontend/components/BatchPaymentForm.tsx:338-343 | the distributed sum is within n/2 stroops of the total, and equal when the n-th part is whole |
| `BatchMoney.SummaryTotals` | frontend/components/BatchSummary.tsx:31-45 | the panel's fold holds exactly the codes of counted recipients with their sums, and how many were counted |
| `BatchMoney.SummaryCountsAddressed` | frontend/components/BatchSummary.tsx:31-45 | counted are, in order, exactly the recipients with an address and a finite positive amount, under their code or XLM without one |
| `BatchMoney.SyncedRowsAreThoseOfRecipients` | frontend/components/BatchPaymentForm.tsx:627-645 | the builder's list becomes one row, in order, for each recipient with address and amount; it keeps status, error and hash of the listed row with its id |
| `BatchMoney.SummaryCountsSyncedRows` | frontend/components/BatchPaymentForm.tsx:627-645 | panel and form, with different filters, count the same amounts in the same order up to the default code |
| `BatchMoney.SummaryAgreesIffCodesNonEmpty` | frontend/components/BatchSummary.tsx:35-41 | panel totals equal the totals that gate Send if and only if no counted recipient has an empty token code |
| `BatchMoney.EmptyTokenSplitsTotals` | frontend/components/PaymentBuilder.tsx:281-283 | after a token without a code is dropped on a counted recipient the panel shows its amount under XLM and the form under the empty code |
| `Builder.ReduceRefinesEditor` | frontend/components/PaymentBuilder.tsx:62-112 | a reducer step is a step of a flat list of snapshots with a cursor: accepted edits truncate and append, undo and redo only move the cursor, rejected edits change nothing |
| `Builder.RunRefinesEditor` | frontend/components/PaymentBuilder.tsx:62-112 | so is every run |
| `Builder.EditsPushOrRefuse` | frontend/components/PaymentBuilder.tsx:62-90 | an edit makes the shown list the newest of the past and forgets the future; it is refused exactly when it adds to ten or removes from one |
| `Builder.UndoAndRedoExchange` | frontend/components/PaymentBuilder.tsx:91-108 | undo and redo exchange the shown list with the last past or first future one |
| `Builder.FlatIsInjective` | frontend/components/PaymentBuilder.tsx:39-43 | the flat view determines past, present and future |
| `Builder.UndosMoveCursor` | frontend/components/PaymentBuilder.tsx:91-99 | k undos show the snapshot k steps back, or the first, and lose none |
| `Builder.RedosMoveCursor` | frontend/components/PaymentBuilder.tsx:100-108 | k redos show the snapshot k steps ahead, or the last, and lose none |
| `Builder.UndoRedoRestores` | frontend/components/PaymentBuilder.tsx:91-108 | k undos then k redos, and the reverse, restore the whole state exactly when there are k steps to take, or nothing in the opposite direction |
| `Builder.WithoutIdKeepsOthers` | frontend/components/PaymentBuilder.tsx:74-77 | removal keeps exactly the recipients with other ids, in their order, and distinctness |
| `Builder.WithoutIdRemovesOne` | frontend/components/PaymentBuilder.tsx:74-77 | with distinct ids it removes exactly one, or none if the id is absent |
| `Builder.UpdatedAt` | frontend/components/PaymentBuilder.tsx:78-84 | the recipient with the id takes over each field the update sets and keeps the rest; other recipients stay |
| `Builder.ProposalIsWellFormed` | frontend/components/PaymentBuilder.tsx:69-90 | every edit the component dispatches turns 1 to 10 recipients with distinct ids into such a list |
| `Builder.EverySnapshotStaysWellFormed` | frontend/components/PaymentBuilder.tsx:62-112 | over any admissible run every snapshot stays so |
| `Builder.SnapshotsAreBoundedAndDistinct` | frontend/components/PaymentBuilder.tsx:50-112 | spelled out for past, present and future |
| `Builder.MoveRow` | frontend/components/PaymentBuilder.tsx:226-228 | the two splices exchange two adjacent rows |
| `Builder.SwapIsPermutation` | frontend/components/PaymentBuilder.tsx:222-256 | such a move permutes, is undone by the opposite move, and is an admissible reorder |
| `Builder.PaymentBuilder.HandleDragHandleKeyDown` | frontend/components/PaymentBuilder.tsx:210-255 | which keys pick up, drop, move or cancel; after a move the picked-up index is where the moved recipient is |
| `Builder.PaymentBuilder.MoveThereAndBack` | frontend/components/PaymentBuilder.tsx:222-248 | an arrow key followed by the opposite one at the new place restores the list and the picked-up index |
| `Builder.PaymentBuilder.constructor` | frontend/components/PaymentBuilder.tsx:125-132 | starts with the given recipients, or one empty row |
| `MultiSig.NextKeepsInv` | frontend/components/MultiSigFlow.tsx:136-257 | every click and every returning await keeps the invariant of steps, pending work, signature origin and submissions |
| `MultiSig.EverySubmissionIsSigned` | frontend/components/MultiSigFlow.tsx:224-239 | in every interleaving each network submission has a non-empty transaction, exactly threshold (>= 2) signed XDRs, and as first the initiator's signature, begun under this build on the transaction or its own prepared form |
| `MultiSig.SubmissionsAreGenuine` | frontend/components/MultiSigFlow.tsx:203-230 | over every run the first XDR of a submission came back from the wallet, and every other one is a non-empty text that was pasted and parsed |
| `MultiSig.SubmissionsUseLastPrepared` | frontend/components/MultiSigFlow.tsx:170-177 | over every run the signature of a submission goes back to a click that handed the wallet the prepared form p if and only if the last simulation of that transaction returned p and was not discarded since |
| `MultiSig.SimulationIsStored` | frontend/components/MultiSigFlow.tsx:151-158 | a returned simulation opens the preview; a finished one is stored with its transaction, a failed one drops what was stored |
| `MultiSig.HeldIffLastPrepared` | frontend/components/MultiSigFlow.tsx:151-177 | on every run the simulation result held is the last one that was not replaced, closed or reset |
| `MultiSig.PreparedUnderThisBuild` | frontend/components/MultiSigFlow.tsx:141-158 | such a result belongs to the current build and its transaction |
| `MultiSig.PreparedFormIsSigned` | frontend/components/MultiSigFlow.tsx:174-177 | after build, simulation and review the wallet is handed the prepared form |
| `MultiSig.ThresholdHolds` | frontend/components/MultiSigFlow.tsx:129-132 | every reachable state has threshold at least 2, and at step submit it is met |
| `MultiSig.ConfirmedOnce` | frontend/components/MultiSigFlow.tsx:224-239 | no built transaction is reported as submitted twice |
| `MultiSig.DeadEndIsForever` | frontend/components/MultiSigFlow.tsx:447-584 | past signing without a transaction no action helps and nothing is submitted |
| `MultiSig.DeadEndIffLateSignature` | frontend/components/MultiSigFlow.tsx:170-186 | exactly a signature arriving after "Start over" leads there |
| `MultiSig.DeadEndIsReachable` | frontend/components/MultiSigFlow.tsx:170-257 | from the initial state, whatever is built and signed, starting over while the wallet is open ends there, and success is out of reach |
| `MultiSig.CompletableIffNotDeadEnd` | frontend/components/MultiSigFlow.tsx:136-257 | from a reachable state some continuation ends in success if and only if it is not such a dead end |
| `MultiSig.WhatStarts` | frontend/components/MultiSigFlow.tsx:136-229 | which click starts building, signing or submitting, and at which step |
| `MultiSig.ThresholdIsParsed` | frontend/components/MultiSigFlow.tsx:387 | the threshold is the typed number, or 2 for a smaller or unreadable one |
| `MultiSig.CollectUntilThreshold` | frontend/components/MultiSigFlow.tsx:203-216 | a pasted XDR is appended exactly while signatures are missing, it is not empty and it parses; submitting opens exactly when none is missing |
| `MultiSig.RemoveTakesOne` | frontend/components/MultiSigFlow.tsx:218-220 | removal takes out the XDR at the index and keeps the order of the others |
| `MultiSig.HashIsReported` | frontend/components/MultiSigFlow.tsx:230-232 | a hash is shown exactly at success, and it is the one the submission returned |
| `MultiSig.RestartIsFresh` | frontend/components/MultiSigFlow.tsx:243-257 | starting over gives the initial flow, except that a pending handler stays pending |
| `MultiSig.MultiSigFlow.HandleInitiatorSign` | frontend/components/MultiSigFlow.tsx:170-177 | signing captures the transaction current at the click, the prepared form if the simulation has one |
| `MultiSig.MultiSigFlow.HandleReset` | frontend/components/MultiSigFlow.tsx:243-257 | start over clears the flow but not the pending handler |
| `Redaction.RedactedIsKeyFree` | backend/src/server.js:96-99 | no output contains S and 55 base32 characters, not even across an inserted mark |
| `Redaction.NothingLooksLikeKey` | backend/src/server.js:96-99 | the same with the pattern spelled out character by character |
| `Redaction.FirstKeyIsReplaced` | backend/src/server.js:96-99 | the first key is replaced by [REDACTED] and the text before it is copied |
| `Redaction.RedactSplicesLeftmostMatches` | backend/src/server.js:96-99 | the scanner yields exactly the text outside the leftmost non-overlapping matches, in order, with a mark for each match |
| `Redaction.LeftmostMatchesExist` | backend/src/server.js:96-99 | every text has such a list of matches |
| `Redaction.UnchangedIffKeyFree` | backend/src/server.js:96-99 | a text is unchanged exactly when it holds no key |
| `Redaction.SanitizeIsSafeAndIdempotent` | backend/src/server.js:97-99 | strings come out key-free, other values untouched, and sanitising twice is sanitising once |
| `Canary.MetricsCollector.RecordHealthCheck` | scripts/canary-monitor.js:192-204 | appends, counts and prunes as one step on the collector's value |
| `Canary.WindowIsSurvivors` | scripts/canary-monitor.js:192-204 | for any clock the window is the history without the checks some later recording found too old |
| `Canary.WindowIsRecentHistory` | scripts/canary-monitor.js:201-203 | for a clock that never goes back it is the suffix of the history within 30 minutes of the last check |
| `Canary.CountersCoverHistory` | scripts/canary-monitor.js:195-199 | the counters equal the counts over the full history |
| `Canary.ErrorRateIsPercentage` | scripts/canary-monitor.js:231-234 | the error rate is the share of 5xx samples in percent, between 0 and 100 |
| `Canary.BaselineLatency` | scripts/canary-monitor.js:206-212 | the upper median of the healthy samples, null exactly below two of them |
| `Canary.BaselineIsMedian` | scripts/canary-monitor.js:206-212 | b is the baseline if and only if it is the upper median over the healthy checks of the window, of which there are at least two |
| `Canary.RecentLatency` | scripts/canary-monitor.js:214-223 | one of the latencies of the last min(20, n) checks of the window with at least 95% of them at most it and fewer below it, null exactly without checks |
| `Canary.RecentIsPercentile` | scripts/canary-monitor.js:214-223 | r is the recent latency if and only if it is that percentile of the last twenty checks |
| `Sorting.SortedIndexHasRank` | scripts/canary-monitor.js:210-222 | position k of the sorted latencies is the element of rank k |
| `Sorting.RankIsUnique` | scripts/canary-monitor.js:210-222 | a rank determines its element, so the getters are determined by their contracts |
| `CanaryMonitor.FivexxRateIsPerElapsedMinute` | scripts/canary-monitor.js:225-229 | the rate times the elapsed minutes, at least one, is the 5xx count |
| `CanaryMonitor.Judge` | scripts/canary-monitor.js:240-275 | the updates of status and issues list each firing check once and end in the highest severity |
| `CanaryMonitor.AssessHealth` | scripts/canary-monitor.js:239-279 | the status is the maximum severity of the firing checks, the issues are exactly those, none exactly when healthy |
| `CanaryMonitor.FailingChecksFireIff` | scripts/canary-monitor.js:269-275 | the failing-checks test fires if and only if at least three of the last five checks of the window failed |
| `CanaryMonitor.HighLatencyFiresIff` | scripts/canary-monitor.js:256-267 | the latency test compares that median and that percentile |
| `CanaryMonitor.LatencyExceedsIff` | scripts/canary-monitor.js:258-259 | neither may be 0 ms, and the percentile must exceed the median times the multiplier |
| `CanaryMonitor.HighErrorRateFiresIff` | scripts/canary-monitor.js:243-248 | the error-rate test fires if and only if the 5xx checks are more than the allowed percentage of all checks |
| `CanaryMonitor.HighFivexxRateFiresIff` | scripts/canary-monitor.js:250-255 | the 5xx test fires if and only if they are more than the minutes since the start, at least one, allow |
| `CanaryMonitor.VerdictIsUnique` | scripts/canary-monitor.js:239-279 | metrics, thresholds and time determine the verdict |
| `CanaryMonitor.ThreeFailuresAreCritical` | scripts/canary-monitor.js:269-275 | three failing checks in a row at the end of the window are critical |
| `CanaryMonitor.ReportedFailuresAreConsecutiveIff` | scripts/canary-monitor.js:269-275 | when the check fires, the reported failures are consecutive if and only if no healthy check lies between two failing ones of the last five |
| `CanaryMonitor.ScatteredFailuresAreCritical` | scripts/canary-monitor.js:269-275 | failures at the first, third and fifth of five checks are critical although no two are adjacent |
| `CanaryMonitor.RateChecksNeverFireEndToEnd` | scripts/canary-monitor.js:85-121 | on checks of the real endpoint function the 5xx counter stays 0 and neither rate check fires |
| `CanaryMonitor.EndpointSample` | scripts/canary-monitor.js:85-121 | a check is healthy exactly for a status from 200 to 399, and any other answer is recorded as status 0 |
| `CanaryMonitor.RunMonitor` | scripts/canary-monitor.js:283-375 | the loop terminates on an advancing clock and ends with exit code 2 after its first critical poll, or at the end time with the code of the final assessment |
| `CanaryMonitor.PollUntil` | scripts/canary-monitor.js:308-348 | the loop stops at the end time or right after the first critical poll |
| `CanaryMonitor.PromotedIffHealthy` | scripts/canary-monitor.js:326-374 | exit code 0 if and only if no poll was critical and the final assessment is healthy |
| `CanaryMonitor.ExitCodeTellsAssessment` | scripts/canary-monitor.js:357-374 | without a critical poll the exit code is 0, 1 or 2 exactly for a healthy, degraded or critical final assessment, made after the end time |
| `CanaryMonitor.HistoryIsInOrder` | scripts/canary-monitor.js:294-313 | what is assessed after k polls are three warm-up checks and k polled ones, in order |
| `CanaryMonitor.FirstCriticalPollExits` | scripts/canary-monitor.js:326-345 | the first critical poll before the end time ends the run with exit code 2 |
| `ZkProof.HashAmountWithSalt` | scripts/zk-proof-helper.ts:42-48 | throws exactly outside 0..2^64-1, otherwise hashes the 16-byte little-endian amount and the salt |
| `ZkProof.CommittedBytes` | scripts/zk-proof-helper.ts:42-48 | the hashed bytes are the eight bytes of the amount, lowest first, eight zeros and the salt |
| `ZkProof.EncodingIsUnique` | scripts/zk-proof-helper.ts:43-44 | the written bytes are determined by the amount |
| `ZkProof.CommitmentIsBinding` | scripts/zk-proof-helper.ts:42-55 | equal commitments have equal amount and salt, or exhibit a hash collision |
| `ZkProof.VerifyMerkleProof` | scripts/zk-proof-helper.ts:101-115 | accepts exactly when there are nodes from the leaf to the root, each the hash of the one before followed by its path element |
| `ZkProof.MerkleProofIsBinding` | scripts/zk-proof-helper.ts:101-115 | two accepted proofs of equal length from leaves of equal length agree on leaf and every element, or exhibit a hash collision |
| `ZkProof.InnerNodeIsAccepted` | scripts/zk-proof-helper.ts:101-115 | an inner node of the path with the rest of the path is accepted exactly when the whole proof is |
| `ZkProof.CreatePaymentProof` | scripts/zk-proof-helper.ts:120-140 | throws exactly when an amount does not fit 64 bits; otherwise the proof commits to the amount and is accepted for the minimum at the root its path leads to, whichever of the two is larger |
| `ZkProof.VerifyPaymentProof` | scripts/zk-proof-helper.ts:145-163 | accepts exactly when the amount hash commits to the minimum amount and the nodes of the path lead from the commitment to the root |
| `ZkProof.AcceptedProofsAgree` | scripts/zk-proof-helper.ts:145-163 | accepted proofs with one amount hash agree on minimum, salt, commitment and path, or exhibit a collision |
| `ZkProof.HexRoundTrip` | scripts/zk-proof-helper.ts:168-177 | decoding an encoded buffer gives it back |
| `ZkProof.HexDigitsOfByte` | scripts/zk-proof-helper.ts:168-170 | each byte is written as its two lower-case digits, the high one first |
| `ZkProof.DecodesLeadingPairs` | scripts/zk-proof-helper.ts:175-177 | decoding yields one byte for each leading pair of hexadecimal digits |
| `ZkProof.DecodesPair` | scripts/zk-proof-helper.ts:175-177 | that byte has these digits, whatever their case |
| `ZkProof.HexReencode` | scripts/zk-proof-helper.ts:168-177 | encoding a decoded string gives it back exactly for even-length lower-case hexadecimal |
| `ZkProof.WireFields` | scripts/zk-proof-helper.ts:182-190 | each wire field is the hexadecimal form of the field with its name |
| `ZkProof.SerializationRoundTrip` | scripts/zk-proof-helper.ts:182-203 | every proof survives serialisation |
| `Highlight.HighlightText` | frontend/components/HighlightedTransactionRow.tsx:20-69 | the parts join back to the text; the marks are, in order, the highlights that occur and whose place no earlier one in (index, list order) covers; every mark is a first case-insensitive occurrence; every highlight that occurs is marked there or covered by a mark |
| `Highlight.Segment` | frontend/components/HighlightedTransactionRow.tsx:39-66 | the loop over sorted positions tiles the text and marks exactly the positions that no earlier mark covers |
| `Highlight.RenderingIsDetermined` | frontend/components/HighlightedTransactionRow.tsx:20-69 | that fixes the output: any two renderings of a text with the same highlights are equal, part by part |
| `Highlight.FoundIsShown` | frontend/components/HighlightedTransactionRow.tsx:44-47 | every found position is marked, or a mark covers its first character |
| `Highlight.SortedPositions` | frontend/components/HighlightedTransactionRow.tsx:33-41 | the visited positions are those of the highlights, by index and, where indexes are equal, by place in the list |
| `Highlight.OrderIsUnique` | frontend/components/HighlightedTransactionRow.tsx:39-41 | there is only one such order, so it does not depend on how the sort works |
| `Highlight.FindIsFirst` | frontend/components/HighlightedTransactionRow.tsx:34-37 | the index is the first occurrence ignoring case, -1 exactly without one |
| `Highlight.TilesAreOrdered` | frontend/components/HighlightedTransactionRow.tsx:39-60 | parts, hence marks, are disjoint and increasing |
| `Highlight.TilesJoin` | frontend/components/HighlightedTransactionRow.tsx:39-68 | tiling parts join to the text |
| `Sorting.SortStably` | frontend/components/HighlightedTransactionRow.tsx:39-41 | sorting by index keeps the list order of highlights with equal index |
| `Webhooks.WebhookDb.InsertWebhook` | backend/db/webhookDb.js:98-106 | inserts an active row, or throws and changes nothing when the id exists |
| `Webhooks.WebhookDb.Deactivate` | backend/db/webhookDb.js:165-168 | turns the active row with this id inactive and returns whether there was one |
| `Webhooks.WebhookDb.GetAllActive` | backend/db/webhookDb.js:130-139 | an entry is returned exactly when its id is an active row and it shows that row |
| `Webhooks.WebhookDb.GetByPublicKey` | backend/db/webhookDb.js:115-123 | the all-active result restricted to the key, without secrets |
| `Webhooks.WebhookDb.GetById` | backend/db/webhookDb.js:147-157 | the all-active entry with this id, null exactly when the id is not active |
| `Webhooks.PerKeyQueryRestrictsAllActive` | backend/db/webhookDb.js:59-70 | the two queries agree as sets |
| `Webhooks.RegistrationIsFound` | backend/db/webhookDb.js:54-84 | what was inserted under a new id is returned by both queries, column by column, for as long as the id is not deactivated |
| `Webhooks.RowsPersist` | backend/db/webhookDb.js:54-84 | over every run no row is lost or rewritten and active only goes from 1 to 0 |
| `Webhooks.RepliesAccountForTable` | backend/db/webhookDb.js:98-168 | over every run successful inserts and deactivations account exactly for presence and inactivity |
| `Webhooks.DeactivatedAtMostOnce` | backend/db/webhookDb.js:165-168 | deactivate returns true at most once per id, only after an insert, exactly if the row is now inactive |
| `Webhooks.DeactivatedNeverReturns` | backend/db/webhookDb.js:59-84 | a deactivated id is in no later query and cannot be inserted again |

## Left out

- BatchRuns.RowsArePaidAtMostOnce: form mode only; in builder mode a row removed and restored by undo comes back idle.
- BatchRuns.UnreportedPaymentIsRepeated: that the network refuses an identical transaction is not modelled; a retry builds a new one.
- BatchMoney.SendStaysWithinBalance: takes the balance map as given; how it is assembled from the account, the catalogue and the XLM reserve is not modelled, and a balance text that does not parse never disables the button.
- BatchMoney.TotalGivesEqualShares: assumes that parsing what `toFixed(7)` wrote gives the written number back.
- Highlight.HighlightText: lower-casing is a character map, so texts whose lower-case form changes length are not covered.
- MultiSig.EverySubmissionIsSigned: signed XDRs are opaque strings; what a wallet or co-signer really signed, and the merging of signatures, are not modelled.
- MultiSig.NextKeepsInv: the preview's confirmation box is ignored, so proceeding is always possible; form fields other than the threshold enter only as one validity flag.
- Builder.EverySnapshotStaysWellFormed: the unused SET_RECIPIENTS action is in the reducer but excluded from runs.
- Webhooks.WebhookDb.InsertWebhook: NOT NULL violations and the order of result rows are not modelled.
- ZkProof.CreatePaymentProof: salt and path, random in the source, are parameters; nullifiers and timestamps are not modelled.
- CanaryMonitor: Sentry queries and the log output; thresholds are finite numbers.
- Redaction: texts are sequences of characters instead of UTF-16 units; the pattern only concerns ASCII.
- Floating-point error everywhere: numbers are exact.
- Memo trimming, error texts of the multi-signature flow, focus, drag-and-drop gestures, toasts and all rendering.
- The Soroban contract, backend services, routes, migrations and offline queue.
