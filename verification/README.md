# Verified model of the tokenzy store

tokenzy issues tokens and one-time codes, redeems and validates them, reports what happened to
webhooks, and sweeps finished rows away. All of it runs against one SQLite file through a single write
connection. This project models that store and the machines around it in Dafny and proves what they
promise over whole runs.

How the model is built:

- **A statement is a relation, a transaction is one step.** `Otps` and `Tokens` define for every
  request which answers the database may give (`Allowed`) and the table it leaves (`After`), with the
  exact `WHERE` conditions. `Deliveries` does the same for the delivery table, whose integer primary key
  is one more than the largest id present. The methods of the class `Store.DB` perform the statements
  in place on the table fields and are proved against those definitions.
- **A run is a sequence of steps** over a wall clock that never goes back, requests that sampled it
  before they got the write connection, commits in any order, requests that give up, and (for tokens)
  events reported some time after the commit (`OtpRuns`, `TokenRuns`). `DeliveryRuns` adds the sender:
  list a batch, record or lose each attempt, crash; beside it enqueues, cleanup and webhook deletions.
- **Each definition has a second reading.** `OtpAnswers` and `TokenAnswers` say what every statement answers
  and leaves column by column, through the status an administrator sees and without the row sets the
  statements are defined with; `OtpHistory` and `TokenHistory` say it from the log, request by request.
- **Sweeping is compared with not sweeping.** `OtpSweep`, `TokenSweep` and `DeliverySweep` run a swept
  and a never-swept store side by side.
- **The workers are classes**: `Cleanup.Job` with its batches and cap, and `Dispatch.Dispatcher` with
  the bounded queue, the fan-out, and the sweep that sends.
- **Helpers**: paging (`Paging`, `CursorText`), derived status and its SQL predicates evaluated in
  three-valued logic with positional placeholders (`Status`), substring search (`Like`), the statement
  splitter (`SplitSql`), migrations under crashes (`Migrate`) and 64-bit lifetime arithmetic (`Ttl`).

Clocks, random ids and codes, receivers and failures are parameters: a lemma that quantifies over them
holds for whatever they turn out to be. Random ids are taken not to repeat where a claim needs it.

## Findings

- A validation whose timestamp was sampled before another request issued a newer code for the same key,
  and which commits after it, can see two live rows and spend both if they carry the same digits. For
  every key, code and pair of times there is such a run (`OtpRuns.StaleValidationSpendsTwo`), so "a
  validation spends at most one code" is sure exactly when it is not older than the newest insertion for
  its key (`OtpRuns.BoundIsExact`). The table alone says how many rows are at stake: the live codes of a
  key at any instant are those created after it and at most one more (`OtpRuns.LiveCount`).
- A sweep is sure to be invisible to a call exactly when the call's timestamp is at most one second
  behind the sweep's cutoff (`OtpSweep.SweepingIsInvisible` and `OtpSweep.OlderCallsCanTell`, and the
  same two for tokens). With ordered timestamps any retention that is not negative is enough.
- Delivery ids are reused. If a webhook is deleted while one of its deliveries is being posted and
  the next enqueue takes the freed id, the result of the old attempt is recorded on the new row, which
  then counts as delivered without ever having been posted (`DeliveryLedger.StaleResultLandsElsewhere`).
  Every such reuse can mislead in this way (`DeliveryLedger.ReuseMisleads`), it is the only step that can
  detach an attempt from its row (`DeliveryLedger.OnlyReuseDetaches`), and the accounts survive a step
  and whatever result comes next exactly when it is none (`DeliveryLedger.AccountsSurvive`).
- Pruning deliveries is therefore not always invisible: by removing the row with the largest id it can
  make the next enqueue take an id that is in flight (`DeliverySweep.PruningShows`). It stays invisible
  as long as every enqueue takes the id of the same delivery in flight with and without pruning, or of
  none (`DeliverySweep.PruningIsInvisible`), and no longer (`DeliverySweep.DisagreementShows`). Not
  deleting a webhook while one of its deliveries is being posted is enough
  (`DeliverySweep.CarefulDropsAgree`).
- While no one else changes the table (no enqueue, no deleted webhook) and the clock does not go back, a
  sending sweep never comes to an end exactly when there is a round up to which every batch was full and
  from which on nothing that is listed is recorded (`SendRounds.SweepEnds`). Failures may pass: each
  round has its own lost records and unreadable webhooks, and fifty that are stuck in one round do no
  harm if a later one records them. From some round on fewer than fifty that may fail is enough to end
  it (`SendRounds.FewCanStick`).
- Recording an event succeeds exactly when nothing fails, when the failing write would come after the last
  receiver, or when only the preparation fails and there is no enabled webhook
  (`Dispatch.Dispatcher.Record`). If writing one row of a fan-out fails, the rows before it stay, the
  receivers after it never get the event, and the sender is not woken for the rows that were written.
- The message that cleanup "stopped at the per-sweep cap with work remaining" is also logged when the
  backlog was exactly the cap and nothing remains (`Cleanup.Job.Drain`).

## Model

| member | source | states |
|---|---|---|
| OtpRuns.AnyoneCanCommit | internal/db/otps.go:144-152 | in every run whoever waits for the write connection can commit next, however old its timestamp, and some answer is allowed |
| OtpRuns.AtMostOneLive | internal/db/otps.go:59-115 | in every reachable state, for every key and every instant from the wall clock on (or from the newest insertion for the key), at most one code is live, though timestamps are sampled before the write lock and commits come in any order |
| OtpRuns.ValidationSpendsOne | internal/db/otps.go:144-167 | a validation not older than the newest insertion for its key matches at most one row |
| OtpRuns.StaleValidationSpendsTwo | internal/db/otps.go:145-162 | for every key, code and timestamp before the newest insertion there is a run in which a validation that old spends two codes with one call, and a generate that old is handed the later of two live codes |
| OtpRuns.BoundIsExact | internal/db/otps.go:144-167 | over all runs whose newest insertion for the key is at a given time, a validation is sure to match at most one row if and only if it is not older than that |
| OtpRuns.LiveCount | internal/db/otps.go:68-74 | in every run, at every instant, the live codes of a key, and those a validation would spend, are the ones created after that instant and at most one other |
| OtpHistory.AttemptAccounting | internal/db/otps.go:96-194 | in every run `attempt_count` of a row is the number of refused validations that found it active, never above the ceiling its issuing request asked for; at most one validation spends it, one did exactly when it is stamped and it is cancelled exactly when the log cancelled it; key, code, ceiling, expiry and creation time are those of the issuing entry |
| OtpHistory.EveryCodeWasIssued | internal/db/otps.go:96-115 | every row that was ever in the table has an issuing entry in the log |
| OtpHistory.UsableIsActive | internal/otp/otp.go:94-107 | a row is active at an instant exactly when the log says so: before the expiry asked for, neither spent nor cancelled by any entry, and refused fewer times than the ceiling asked for |
| OtpHistory.NextValidation | internal/db/otps.go:144-194 | in every run the next validation spends a row if and only if it names the key and digits of the request that issued it, before the expiry asked for, with no spending or cancelling entry in the log and fewer logged failures than the ceiling asked for; it counts against the row if and only if it names its key while it is usable and is refused; otherwise the row stays as it is |
| OtpRuns.FinishedStaysFinished | internal/db/otps.go:144-194 | once a row is spent, cancelled or at its ceiling, no later validation spends it or counts against it, whatever its code or timestamp |
| OtpHistory.ResendContract | internal/db/otps.go:64-90 | while a code is usable by the log, every generate for the key that is not older than the newest insertion returns that id with the code, ceiling, expiry and creation time of its issuing request, reused, and writes nothing |
| OtpHistory.CancellationStays | internal/db/otps.go:392-405 | every log entry answered as a cancellation named a row of the environment it asked for, whose `revoked_at` is that entry's timestamp from then on |
| OtpHistory.CancelledIsFinal | internal/db/otps.go:59-194 | no later entry of the log spends that row, counts against it, hands it out or cancels it again |
| OtpRuns.RowsEvolve | internal/db/otps.go:152-185 | between any two moments of a run a row's key, code, ceiling, expiry and creation time are unchanged, its counter only rises, its stamps are written once, and a deleted row stays deleted |
| OtpRuns.NeverActiveAgain | internal/otp/otp.go:94-107 | a code that is not active at some moment is not active at any later one |
| OtpAnswers.GenerateAnswers | internal/db/otps.go:59-115 | by the columns: the newest code of the key whose status is active is handed back and nothing written; otherwise a taken id is refused; otherwise a row with the key, code, ceiling and expiry asked for, creation time now, no attempts and no stamps is inserted |
| OtpAnswers.ValidateAnswers | internal/db/otps.go:144-194 | by the columns: the answer is a success if and only if some row of the key carries the digits and has status active, and then exactly those are stamped; a refusal adds one attempt to exactly the active rows of the key |
| OtpAnswers.RevokeAnswers | internal/db/otps.go:392-405 | by the columns: one row of that environment with no stamp gets it and has status revoked ever after, or nothing is found and nothing changes |
| OtpAnswers.DeleteAnswers | internal/db/otps.go:408-422 | by the columns: exactly the row with the id and the environment goes |
| OtpAnswers.PurgeStepAnswers | internal/db/otps.go:431-444 | by the columns: only rows expired, spent or cancelled before the cutoff go, and none is left if fewer than the limit went |
| OtpAnswers.LiveIsActive | internal/otp/otp.go:94-107 | the condition the statements repeat is the derived status active |
| OtpAnswers.PickedAreActive | internal/otp/otp.go:94-107 | the rows the three WHERE clauses pick are those of the key whose derived status is active |
| Otps.CommitEffect | internal/db/otps.go:59-194 | what one commit may do to one row: only evolve it, or insert it when nothing live was found for its key |
| Otps.NewestIsUnique | internal/db/otps.go:68-74 | the order of the reuse query picks one row |
| Otps.AlwaysAnswered | internal/db/otps.go:59-194 | every request has an answer in every table, so no run is blocked by the relation |
| OtpSweep.SweepingIsInvisible | internal/db/otps.go:431-444 | after any run with sweeps anywhere whose earlier calls were recent enough too, a validation or generate that is recent enough gets exactly the answers a never-swept store could give |
| OtpSweep.OrderedCallsAreTimely | internal/cleanup/job.go:136-150 | when timestamps do not go back and retention is not negative, every call is recent enough for that |
| OtpSweep.OlderCallsCanTell | internal/db/otps.go:431-444 | for every older validation and every older generate there is a store that answers it differently once swept |
| TokenRuns.AnyoneCanCommit | internal/db/tokens.go:85-96 | in every run whoever waits can commit next, however old its timestamp, and some answer is allowed |
| TokenHistory.RedemptionAccounting | internal/db/tokens.go:42-113 | in every interleaving the successful redemptions of a token are its `used_count`, never above the limit its creating request asked for; its environment, value, payload, limit, expiry and creation time are those of that entry; it is stamped exactly when the log cancelled it |
| TokenHistory.EveryTokenWasCreated | internal/db/tokens.go:42-68 | every row that was ever in the table has a creating entry in the log |
| TokenHistory.UsableIsActive | internal/token/status.go:41-59 | a token is active at an instant exactly when the log says so: before the expiry asked for, not cancelled, and redeemed fewer times than asked for |
| TokenHistory.NextRedemption | internal/db/tokens.go:85-113 | in every run the next redemption takes one use of a token if and only if it names the environment and plaintext of the request that created it while the token is usable by the log; otherwise the row stays as it is |
| TokenHistory.CancellationStays | internal/db/tokens.go:341-358 | every log entry answered as a cancellation named a row of the environment it asked for, which carries its timestamp from then on |
| TokenRuns.RedemptionsAreJustified | internal/db/tokens.go:85-113 | every success sampled a time before expiry, named the token's environment and plaintext, and was committed before any cancellation |
| TokenRuns.EventAccounting | internal/db/tokens.go:105-112 | reported plus owed events: `consumed` equals the redemptions, `exhausted` is one exactly when the limit is reached, `revoked` one exactly when cancelled, `created` one |
| TokenRuns.RowsEvolve | internal/db/tokens.go:85-113 | between any two moments of a run a token only evolves: its limit, expiry and value never change, its count only rises and not past the limit |
| TokenRuns.NeverActiveAgain | internal/token/status.go:41-52 | a token that is not active at some moment is not active at any later one |
| TokenAnswers.CreateAnswers | internal/db/tokens.go:42-68 | by the columns: unless the id or the plaintext is taken, a row with exactly the environment, value, payload, limit and expiry asked for is inserted, unused and unstamped |
| TokenAnswers.ConsumeAnswers | internal/db/tokens.go:85-113 | by the columns: with distinct plaintexts the answer is a success if and only if some row has that plaintext and environment and its derived status is active; that row is used once more and no other changes |
| TokenAnswers.RevokeAnswers | internal/db/tokens.go:341-358 | by the columns: one row of that environment with no stamp gets it and has status revoked ever after, or nothing changes |
| TokenAnswers.DeleteAnswers | internal/db/tokens.go:365-379 | by the columns: exactly the row with the id and the environment goes |
| TokenAnswers.PurgeStepAnswers | internal/db/tokens.go:385-417 | by the columns: only rows expired before the cutoff go, or only those cancelled before it or used up with their last use before it, and none is left if fewer than the limit went |
| Tokens.ExhaustionSeenAtTheLimit | internal/db/tokens.go:105-112 | the status read after a redemption is exhausted exactly when that redemption reached the limit |
| Tokens.AlwaysAnswered | internal/db/tokens.go:42-113 | every request has an answer in every table |
| Tokens.DistinctValuesKept | internal/db/migrations/001_init.sql:63-75 | no commit breaks the uniqueness of plaintexts |
| TokenSweep.SweepingIsInvisible | internal/db/tokens.go:385-417 | after any run with both sweeps anywhere whose earlier calls were recent enough too, a redemption that is recent enough, or the creation of a new token, gets exactly the answers a never-swept store would give |
| TokenSweep.OrderedCallsAreTimely | internal/cleanup/job.go:136-144 | ordered timestamps and non-negative retention make every call recent enough |
| TokenSweep.OlderCallsCanTell | internal/db/tokens.go:385-394 | for every older redemption there is a store that answers it differently once swept |
| DeliveryRuns.Lifetime | internal/model/model.go:296-303 | every row of every run is exactly one of pending, delivered and given up, with at most four recorded attempts and four exactly when given up |
| DeliveryRuns.DeliveredIsFinal | internal/webhook/dispatch.go:337-390 | although results overwrite unconditionally, a row that was delivered is never rewritten, never listed and never attempted again, and its webhook gets no second row for the event |
| DeliveryRuns.CleanupSparesPending | internal/db/webhooks.go:333-344 | the cleanup removes no pending row |
| DeliveryLedger.OnlyReuseDetaches | internal/db/webhooks.go:284-304 | a step detaches an attempt in flight from the row it was listed from if and only if it is an enqueue that reuses its id |
| DeliveryLedger.DeliveryAccounting | internal/webhook/dispatch.go:394-412 | without such reuse, the counter of a row is the number of results recorded for it, it is delivered exactly when its receiver accepted, once, and given up exactly at four recorded refusals |
| DeliveryLedger.AccountsSurvive | internal/db/webhooks.go:237-304 | from accounts that are right, a step and any next result leave them right if and only if the step does not reuse an id in flight |
| DeliveryLedger.ReuseMisleads | internal/db/webhooks.go:284-304 | after every reuse of an id in flight, a success of that attempt stamps the new delivery delivered and counts an attempt for which no result was ever written |
| DeliveryLedger.RetriesWait | internal/webhook/dispatch.go:64-68 | without reuse of an id in flight, an attempt after refusal n of a delivery is listed no earlier than the n-th delay after that refusal |
| DeliveryLedger.RowsWait | internal/webhook/dispatch.go:64-68 | in every run, a row is listed for its second to fourth attempt no earlier than the scheduled delay after a result was last written to it |
| DeliveryLedger.CarefulDropsKeepAccounts | internal/db/migrations/002_webhooks.sql:30-44 | while no webhook is deleted under its own attempts in flight, the accounting holds |
| DeliveryLedger.StaleResultLandsElsewhere | internal/db/webhooks.go:284-304 | a concrete run in which a result is recorded on a row that took over the id |
| DeliverySweep.PruningIsInvisible | internal/db/webhooks.go:284-344 | with results recorded by rowid in both, and as long as every enqueue takes the id of the same delivery in flight in both tables or of none, the due list of a pruned table is that of a never-pruned one, up to ids, for every instant and batch size |
| DeliverySweep.EnqueueKeepsRelated | internal/db/webhooks.go:237-254 | an enqueue keeps the two stores in step if and only if it takes the id of the same delivery in flight in both, or of none in either |
| DeliverySweep.DisagreementShows | internal/db/webhooks.go:284-304 | whenever it does not, one success of the attempt concerned makes the two due lists differ |
| DeliverySweep.CarefulDropsAgree | internal/db/migrations/002_webhooks.sql:30-44 | while no webhook is deleted under its own attempts in flight, no enqueue takes an id in flight in either table |
| DeliverySweep.PruningShows | internal/db/webhooks.go:333-344 | a concrete run in which pruning changes what is due |
| Deliveries.DueListIsExact | internal/db/webhooks.go:257-279 | the due query returns due rows only, each once, earliest first, and leaves one out only when the batch is full of earlier ones |
| Deliveries.DueListInColumns | internal/db/webhooks.go:257-279 | the same by the columns: not delivered, retry time set and come, ordered by retry time and then id |
| Deliveries.EnqueueIs | internal/db/webhooks.go:237-254 | a new row comes last under one more than the largest id, due at its creation time, with no attempt and no stamp |
| Deliveries.OutcomeIs | internal/webhook/dispatch.go:394-412 | a success is stamped and has no retry; refusals one to three are retried after 30, 120 and 600 seconds and the fourth never |
| Deliveries.BatchIsOver | internal/db/webhooks.go:333-344 | a purge takes only rows created before the cutoff and delivered or given up, and leaves none if it takes fewer than the limit |
| Deliveries.ResultsCommute | internal/db/webhooks.go:284-304 | results of different deliveries can be recorded in either order |
| SendRounds.SweepEnds | internal/webhook/dispatch.go:337-390 | with outcomes that may differ from round to round, a clock that does not go back and no one else changing the table, a sweep never ends if and only if there is a round up to which every batch was full and from which on nothing listed is recorded |
| SendRounds.StandingSweepEnds | internal/webhook/dispatch.go:337-390 | with the clock standing still and the same failures in every round, a sweep ends if and only if fewer than a batch of due deliveries are stuck at its start |
| SendRounds.FewCanStick | internal/webhook/dispatch.go:337-390 | if from some round on fewer than a batch of pending deliveries may fail to be recorded, the sweep ends, however long attempts take and whatever failed before |
| SendRounds.BriefEnds | internal/webhook/dispatch.go:337-390 | a sweep that lists before a first retry can be due ends if fewer than a batch of due deliveries ever fail to be recorded |
| SendRuns.RoundIsARun | internal/webhook/dispatch.go:337-390 | whatever run left the sender idle, the table a round leaves is that of a continuation of the run in the delivery machine, which enqueues nothing and reuses no id, so everything proved of its runs, with or without reuse, holds of the sender |
| SendRounds.BatchIs | internal/db/webhooks.go:257-279 | a batch is that many distinct due deliveries, and all of them when it is short |
| SendRounds.RoundWorks | internal/webhook/dispatch.go:337-390 | whatever the clock says, a round that records anything uses up some of the attempts that pending deliveries have left, and any other leaves the table as it is |
| SendRounds.RoundInColumns | internal/webhook/dispatch.go:343-412 | a round posts each of the first fifty due deliveries whose webhook can be read, and rewrites exactly those whose attempt is recorded, with the next attempt number and its outcome |
| Dispatch.Dispatcher.Sweep | internal/webhook/dispatch.go:337-390 | the loop terminates when it is cancelled and otherwise unless it hangs in the sense of SweepEnds, and leaves the table its rounds leave, the last listing short; every delivery due at the start has been posted unless the last round could not read its webhook; if the sweep is over before the shortest retry delay, none is recorded twice, those that never fail to be recorded are posted exactly once, whatever was due is recorded or failed in the last round too, and all other rows are untouched |
| BriefSweep.NextRound | internal/webhook/dispatch.go:337-390 | a round before the first retry lists only deliveries not recorded yet, so each row is recorded at most once, in one round |
| Dispatch.Dispatcher.SendBatch | internal/webhook/dispatch.go:343-385 | one round posts each listed delivery whose webhook loads exactly once, in any order, and settles exactly the recorded ones |
| Dispatch.Dispatcher.LoadJobs | internal/webhook/dispatch.go:355-374 | the per-batch hook map passes over exactly the deliveries whose webhook cannot be read |
| Dispatch.Dispatcher.Attempt | internal/webhook/dispatch.go:394-412 | writes the next attempt number with the time of success, or with a retry after 30, 120 or 600 seconds, or with neither after the fourth, or nothing when the record is lost |
| Dispatch.Dispatcher.Notify | internal/webhook/dispatch.go:217-223 | never blocks: accepts in order below 512, drops at 512; notified equals dropped plus queued plus taken |
| Dispatch.Dispatcher.Record | internal/webhook/dispatch.go:262-300 | succeeds exactly under the faults that need nothing more, and then writes one row per enabled subscribing webhook in id order, all with one event id, and wakes the sender if there is one; otherwise exactly the rows before the failure and no wake |
| Dispatch.Dispatcher.RecordNext | internal/webhook/dispatch.go:249-260 | takes the oldest event off the queue whatever becomes of it; says exactly when it was written out, which rows were written, and whether the sender was woken |
| Dispatch.AudienceIsExact | internal/db/webhooks.go:118-139 | the receivers are every enabled webhook of the environment that subscribes, each once, in id order |
| Store.Webhook.Subscribes | internal/model/model.go:266-276 | an empty list means every event, otherwise membership |
| Store.DB.GenerateOTP | internal/db/otps.go:59-115 | in place, exactly an allowed answer and the table it leaves, and these by the columns as in OtpAnswers.GenerateAnswers: the row inserted is the one asked for |
| Store.DB.ValidateOTP | internal/db/otps.go:144-194 | in place, the consuming update and otherwise the counting one, as allowed, and by the columns as in OtpAnswers.ValidateAnswers: a success exactly when an active row of the key carries the digits |
| Store.DB.RevokeOTP | internal/db/otps.go:392-405 | stamps one unrevoked row of the environment, which is revoked from then on, or finds nothing |
| Store.DB.DeleteOTP | internal/db/otps.go:408-422 | removes one row of the environment or finds nothing |
| Store.DB.DeleteDeadOTPs | internal/db/otps.go:431-444 | removes only rows expired, spent or cancelled before the cutoff, as many as there are up to the limit |
| Store.DB.CreateToken | internal/db/tokens.go:42-68 | inserts the row asked for unless id or value is taken, and reports `created` |
| Store.DB.ConsumeToken | internal/db/tokens.go:85-113 | a success exactly when an active token of the environment has the plaintext; takes one use of it, reports `consumed`, then `exhausted` if it was the last use; otherwise changes and reports nothing |
| Store.DB.RevokeToken | internal/db/tokens.go:341-358 | stamps one unrevoked row of the environment and reports it, or finds nothing |
| Store.DB.DeleteToken | internal/db/tokens.go:365-379 | removes one row of the environment or finds nothing |
| Store.DB.DeleteExpiredTokens | internal/db/tokens.go:385-394 | removes only tokens expired before the cutoff, as many as there are up to the limit |
| Store.DB.DeleteSettledTokens | internal/db/tokens.go:404-417 | removes only tokens cancelled before the cutoff or used up with their last use before it, as many as there are up to the limit |
| Store.DB.ListTokens | internal/db/tokens.go:221-276 | a page of the rows of the environment whose derived status is the one asked for, with the limit clamped and the extra row turned into the next cursor; a short first page holds every such row |
| Store.DB.ListOTPs | internal/db/otps.go:264-322 | the same for codes, with type equality and substring search on the identifier |
| Store.SelectOtps | internal/db/otps.go:273-287 | the conjuncts that are added keep exactly the rows with that status, type and an identifier containing the term |
| Store.DB.EnqueueDelivery | internal/db/webhooks.go:237-254 | appends one row due at once under the id after the last, refused when the webhook is gone |
| Store.DB.DueDeliveries | internal/db/webhooks.go:257-279 | selecting row by row and inserting by retry time gives the due list |
| Store.DB.RecordDeliveryResult | internal/db/webhooks.go:284-304 | the unguarded overwrite by id, keeping order and foreign keys |
| Store.DB.DeleteOldDeliveries | internal/db/webhooks.go:333-344 | every row removed was created before the cutoff and is delivered or given up, as many as there are up to the limit; if fewer went, no such row is left |
| Store.DB.DeleteWebhook | internal/db/webhooks.go:196-210 | removes the webhook of that environment and, by cascade, all its deliveries |
| Store.DB.GetWebhookByID | internal/db/webhooks.go:161-171 | finds the webhook with the id, or there is none |
| Store.DB.SetWebhookEnabled | internal/db/webhooks.go:174-193 | stamps or clears the one webhook of that environment and leaves queued deliveries alone |
| Store.DB.CreateWebhook | internal/db/webhooks.go:60-88 | appends an enabled webhook under a fresh id, keeping every delivery linked |
| Store.DB.ListEnabledWebhooks | internal/db/webhooks.go:118-139 | the row loop returns the enabled webhooks of the environment in id order |
| Cleanup.Job.Sweep | internal/cleanup/job.go:136-156 | every token removed had expired, was cancelled or was used up before its cutoff, every code removed was expired, spent or cancelled before its own, every delivery removed was created before its own and delivered or given up; none of these can ever be redeemed, validated or sent again; no surviving row changes; each reported count is the number of rows that series removed; after an uninterrupted series over a backlog of up to 20000 rows no such row is left |
| Cleanup.Job.Drain | internal/cleanup/job.go:160-180 | the total is the lesser of backlog and 1000 per round up to 20 rounds or the interruption, taken from this work's candidates only; the cap is reported exactly when twenty full batches went |
| Cleanup.WithDefaults | internal/cleanup/job.go:87-105 | every window that is positive is kept, every other becomes ten minutes between rounds, one day, three days, one day and one day |
| Cleanup.CandidatesAreFinished | internal/db/tokens.go:385-417 | whatever either token sweep may remove is finished at every instant from now on |
| Cleanup.BacklogFalls | internal/cleanup/job.go:160-180 | removing n candidates leaves exactly n fewer to find |
| Cleanup.DrainIsCodeSweep | internal/cleanup/job.go:145-147 | what a drain removes from the codes is one sweep step of the simulation, so its result on answers applies to the job |
| Cleanup.DrainIsTokenSweep | internal/cleanup/job.go:139-144 | the same for either drain of the tokens |
| Cleanup.DrainIsDeliverySweep | internal/cleanup/job.go:148-150 | and for the drain of the deliveries |
| Paging.Clamp | internal/db/tokens.go:222-228 | a limit from 1 to 200 is kept, none becomes 50 and more becomes 200 |
| Paging.PageIs | internal/db/tokens.go:236-275 | a page is the first rows beyond the cursor, and there is a next cursor exactly when rows are left, all of them beyond it |
| Paging.PageInColumns | internal/db/tokens.go:236-275 | by the columns: newest first, ties by id downwards, all older than the cursor; what is left out is older than the last row, which is then the next cursor |
| Paging.NothingTwice | internal/db/tokens.go:236-275 | a walk along `next` never returns a row twice, whatever is inserted, deleted or changes status meanwhile |
| Paging.NothingMissed | internal/db/tokens.go:236-275 | a row present and matching throughout a complete walk is returned exactly once |
| Paging.StaticWalk | internal/db/tokens.go:221-276 | on an unchanging table the pages concatenate to the sorted list, in max(1, ceil(n/limit)) pages |
| Paging.WalkCompletes | internal/db/tokens.go:236-275 | on an unchanging table a walk is complete as soon as its requests could hold all rows, so every walk completes |
| CursorText.CursorRoundTrip | internal/db/tokens.go:166-189 | decoding inverts encoding for every position |
| CursorText.ParsingIsStable | internal/db/tokens.go:176-189 | any text a client sends decodes to a position that survives another round |
| CursorText.ParsedCursorIs | internal/db/tokens.go:176-189 | only a 64-bit integer, a dot and an id give a position, that one; everything else starts from the top |
| Status.TokenPredicateAgrees | internal/db/tokens.go:199-214 | a token satisfies the SQL predicate of a status exactly when that is its derived status |
| Status.OtpPredicateAgrees | internal/db/otps.go:243-260 | the same for codes |
| Status.CountsBindInOrder | internal/db/tokens.go:299-318 | with the arguments concatenated and the environment last, every filter of the one-pass query gets its own |
| Status.CountByPredicates | internal/db/tokens.go:296-330 | the loop that builds query and arguments counts what each predicate alone would |
| Status.CountTokensByStatus | internal/db/tokens.go:296-330 | the i-th count is the number of tokens with the i-th status |
| Status.CountOtpsByStatus | internal/db/otps.go:333-365 | the i-th count is the number of codes with the i-th status |
| Status.TokenCountsAddUp | internal/token/status.go:41-52 | the four counts add up to the tokens of the environment |
| Status.OtpCountsAddUp | internal/otp/otp.go:94-107 | the five counts add up to the codes of the environment |
| Common.StrLessIs | internal/db/tokens.go:248 | ids are compared byte by byte: the first difference decides and a proper prefix comes first |
| Like.SameCharIs | internal/db/otps.go:284-287 | the search tells two characters apart unless they are equal or the two cases of one ASCII letter |
| Like.SearchIsSubstring | internal/db/otps.go:284-287 | the pattern built from a search term matches exactly the identifiers the term occurs in, up to ASCII case |
| Like.EscapedPrefix | internal/db/otps.go:326-329 | an escaped term followed by `%` matches exactly the strings that begin with the term, up to ASCII case |
| SplitSql.SplitStatements | internal/db/db.go:265-315 | the one-pass scanner with two flags computes what the recursive lexer defines |
| SplitSql.SplitInvertsJoin | internal/db/db.go:265-315 | any trimmed statements with balanced quotes come back exactly, whatever comments and space stand between them and whatever `;`, `--` and `''` stand inside their literals |
| SplitSql.CommentInside | internal/db/db.go:265-315 | a comment in the middle of a statement goes, its newline stays between the words |
| SplitSql.FileMayEndOpen | internal/db/db.go:311-313 | a file may end inside a comment, which goes, or inside a literal, which is returned as it stands |
| SplitSql.LastNeedsNoSemicolon | internal/db/db.go:311-313 | the last statement may go unterminated |
| Migrate.Connection.Migrate | internal/db/db.go:206-260 | one run, cut short anywhere, commits some first part of what was missing, whole files only; all of it when it succeeds |
| Migrate.Connection.ApplyFile | internal/db/db.go:236-257 | one file in one transaction: all its statements and its record, or nothing |
| Migrate.AlwaysAPrefix | internal/db/db.go:206-260 | after any number of interrupted runs a prefix of the files is applied, each once, in order |
| Migrate.OneMoreRun | internal/db/db.go:206-260 | what one interrupted run leaves is the state after the runs before it and this one |
| Migrate.CompleteRunFinishes | internal/db/db.go:206-260 | one complete run then leaves every file applied exactly once, in order, and a further run has nothing to do |
| Ttl.ParseIsExact | internal/ttl/ttl.go:94-111 | accepted exactly when the count is a positive 64-bit integer, the unit one of the four and the mathematical product within the ceiling in whole seconds; nothing wraps and the result is the product; each refusal names its cause |
| Ttl.HumanParsesBack | internal/ttl/ttl.go:66-84 | the text shown for a duration is a count, a space and a unit in singular or plural, which parse back to the same whole seconds, and no larger unit divides them |
| Ttl.Human | internal/ttl/ttl.go:66-84 | the loop from the largest unit down renders the largest one that divides |
| Ttl.LookupUnit | internal/ttl/ttl.go:55-62 | finds the unit with that name, or there is none |
| Ttl.ApiAndFormAgree | internal/token/limits.go:57-96 | the API and the form accept the same lifetimes, from one second to the ceiling, as exactly that duration; a configured limit is its own ceiling |
| Ttl.LongestLifetimes | internal/otp/otp.go:182-198 | what a configured limit comes to for tokens and for codes: the default when unset, cut at the absolute ceiling |
| Text.FormatParses | internal/db/tokens.go:173-188 | every 64-bit integer reads back from its decimal form, which holds neither dot nor space |
| Text.ParseIntIsExact | internal/db/tokens.go:176-189 | a text reads as an integer exactly when it is an optional sign, leading zeros and its decimal form, and the integer has 64 bits |

## Left out

- HTTP handlers, routing, the admin panel, sessions, users, projects, API keys and masking: plumbing around the store.
- Randomness, ids, code generation, HMAC and password hashing: ids, codes and values are inputs.
- Validation of inputs (ResolveAttempts, ResolveLength, ValidateMaxUses, ValidatePayload, ParseHeaders, event lists as text): one-line bounds. The runs assume the two a handler enforces, a ceiling of at least one attempt and a limit of at least one use.
- Columns that are only displayed: token_prefix, status_code and error of a delivery, headers and label of a webhook, ListDeliveries, ListOTPTypes, Remaining and AttemptsLeft.
- SQLite itself: committed transactions are taken to be atomic and `WHERE`, `ORDER BY`, `LIMIT` and `COUNT(*) FILTER` to mean what SQL says. Rowids are taken not to run out.
- Database errors inside the statements of Store.DB: a failed transaction leaves no trace, which the runs model as a request that gives up.
- Deleting an environment or a project, whose cascades are deletes of its tokens, codes and webhooks.
- Real networking: an attempt is accepted or refused and its record written or lost. Nothing bounds how often a delivery is posted, only how often a result is recorded.
- Events owed when the process stops: they are in memory, so a crash loses them. TokenRuns leaves them owed.
- Goroutines and the limit of four at a time: RunJobs picks the attempts of a batch in any order, one by one; no attempt reads what another writes. Changes by others between the listing and the end of a batch are in DeliveryRuns, not in the class.
- The sleeping loops Run, recordLoop and sendLoop, and the ticker: RecordNext and Sweep are one turn each.
- Listings read while others write: a page is one statement, and a walk of several pages is modelled over a table that changes between them.
- Dispatch.Dispatcher.Sweep: at most one record per delivery is promised for sweeps shorter than the first retry delay of 30 seconds, because after it a delivery refused at the start is due again and is rightly attempted a second time. Termination does not depend on that. Nobody else writes to the table between its rounds; DeliveryRuns has the other writers.
- DeliverySweep.PruningIsInvisible: stated under the condition on reused ids, because without it the repository's pruning is visible; the condition is exact.
- DeliveryLedger.DeliveryAccounting: stated without reuse of an id in flight, because the repository does not prevent it; DeliveryLedger.OnlyReuseDetaches says exactly when it goes wrong.
- OtpRuns.RowsEvolve: assumes, as all of OtpHistory does, that new ids do not repeat.
- Like.SearchIsSubstring: strings without NUL, where SQLite stops reading.
