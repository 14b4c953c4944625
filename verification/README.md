# Carigma: verified models

A Dafny model of the parts of the Carigma backend where being slightly wrong costs
somebody something: money that must be credited once, rows that two requests write at
the same time, mail that must not be sent twice, and hand-written text scanners that
have no library behind them. Each module states what its part promises and proves it;
where the code does not keep a promise, the module says exactly when it does and shows
an input where it does not. Nothing was executed: every statement here is a proof about
a model written from the source.

`dafny verify dfyconfig.toml` checks everything. Every lemma carries `{:induction false}`, so each
proof is the one written in its body.

## The modules

**Money.** `Credits` is the ledger and the three operations on it, `Payments` the two
reconcile functions as methods over the stored rows, each proved against a function
that says what one undisturbed call does. `TopupRaces` and `SubscriptionRaces` cut a
request at its store and ledger calls and let any number of requests take those steps
in any order, with every grant free to be applied, provably not applied, or raised.
The conditional updates are atomic steps; their result is the only guard. One lemma in
each ties the machine back to the method: a request run straight through is one
schedule of it.

**Limiter.** `RateLimit` keeps the bucket and the table of buckets as classes. A call
is refused exactly when letting it through would exceed the burst plus the rate times the
time elapsed since some call of the same user and agent, or of the same address, over every
history of calls by everybody.

**Repair plan.** `RepairKeys` groups rows by posting, picks a keeper and emits updates
in an order chosen so that a unique index holds after every single one.

**Scanners.** `CallScanner` splits a call's arguments, `KeyScanner` reads an object's
keys, `JsonRepair` repairs model output. All three are loops over characters, proved
against recursive readings and then against printing, or against a reader of RFC 8259.

**Posts.** `Posts` has the slot transitions and the streak, `PlanStore` the two tables,
what a save leaves to load, and any number of load-edit-save sessions at once.

**Mail.** `MailProtocol` is the one path from a built email to a sent one, with crons
interleaved; `Reengagement` is the decaying sequence under a cadence table that may
change from pass to pass.

**Line wrap.** `LineWrap` is the greedy wrap of the CV sidebar.

`Basics` and `Strings` hold an option type and the few Python text operations used.

## What does not hold

- A caller can be told "already added" about a payment that was never credited, and then
  usually for good. One visit after another, that happens exactly when the first visit that
  moved the row off `created` found the payment dead, or claimed it and its grant raised
  unwritten (`Payments.ToldAlreadyCreditedExactly`, `Payments.UncreditedForGood`). Under
  overlap it is false, as the answer is given, exactly when nobody holds the claim, or the
  holder's grant is still to come, was not applied, or raised unwritten; and it stays false
  for good exactly when the row is dead and nobody's or the holder's grant raised unwritten
  (`TopupRaces.ToldAlreadyCreditedExactly`). There is a schedule for each: a dead row, a
  raised grant, a holder about to release, a holder that just released.
- A paid month can be lost when reconciles overlap: the wind-back yields to a count that
  has moved on (`SubscriptionRaces.OverlapCanLoseMonths`). What is missing is exactly the
  plan's credits for the months of such spans and of raised grants that were never written
  (`SubscriptionRaces.ShortfallIsTheLostMonths`). "Up to date, every paid month has been
  credited" is true exactly when the count has reached what the provider reported and every
  span claimed below that is on the ledger (`SubscriptionRaces.ToldUpToDateExactly`); after
  a lost month it is told and false for good (`SubscriptionRaces.LostForGood`,
  `SubscriptionRaces.LostMonthsAreToldCredited`).
- The repair's order keeps the index only on tables whose V1-shaped keys are their rows'
  own. On any other table an update is refused exactly when a row that has the key it
  writes still waits for its own update, or has none (`RepairKeys.RefusedExactly`,
  `RepairKeys.NeverRefusedExactly`).
- The limiter's advice can be up to a millisecond short, because it rounds up from 0.999
  (`RateLimit.AdviceCanBeShort`; exactly when, in `RateLimit.AdviceAdmitsExactly`).
- Rate-limit keys do not always tell users and agents apart: two agent names can share a
  bucket exactly when one ends in a colon and the other (`RateLimit.AgentsCollideExactly`).
  None of the names the routes pass has a colon (`RateLimit.AgentsInUseAreApart`).
- A template hole makes the argument scanner run past its call: the hole raises the depth
  and, still inside the template, nothing lowers it
  (`CallScanner.UndoesPrintingExactlyWithoutHoles`).
- The key scanner does not look at escapes, so one escaped quote turns strings inside out
  (`KeyScanner.EscapedQuoteLosesKeys`). A value is read right whatever stands around it
  exactly when the scanner, having read it and the comma after it, has its key and is back
  where an entry begins (`KeyScanner.ReadsRightExactly`): every value whose quotes and
  brackets close for the scanner, and some others (`KeyScanner.ColonBetweenEscapes`).
- Pass 1 of the JSON repair also edits strings: a comma before a closing bracket inside
  one is dropped (`JsonRepair.RepairKeepsStringsExactly`). And it runs once, so of two commas
  before a closing bracket one is left, as in `[1,,]` (`JsonRepair.RepairLeavesCommaExactly`).
- The streak is said to advance when every committed slot shipped; optional posts can
  stand in for a missing commitment (`Posts.AdvancesWhenEveryCommitmentShipped`).
- A cadence table with no sends in it still mails once
  (`Reengagement.TotalBoundsSendsUnlessEmpty`).
- A digest keeps its distance from the latest one whose update was stored
  (`Reengagement.SendsAreSpaced`), so a lost update lets it go out early: the weekly claim
  stops a repeat in the same Sunday-to-Saturday week, and nothing does in the next
  (`Reengagement.LostUpdateRepeatsExactly`). The weekly cron then sends the same digest a
  week later, which is too early from the third digest on
  (`Reengagement.NextWeeksCronRepeats`); run by hand it can be a day later
  (`Reengagement.SaturdayRepeatsOnSunday`).
- A finished or returned row stays closed while passes run one at a time
  (`Reengagement.ClosedForGood`). When they overlap, the update by id of a pass that read
  the row open can open it again: exactly when such a pass has sent, or still would, and
  will store an update that leaves it open (`Reengagement.ReopenedExactly`,
  `Reengagement.SlowPassReopens`).
- A dry pass over the sequences sends nothing but does close rows whose users look
  returned, and so changes later mail exactly when the row had a due date
  (`Reengagement.DryPassMattersExactly`).
- `send` says the duplicate claim comes before the audience check; the code checks the
  audience first, and so does the model. It also says a dry run writes nothing, which
  holds only when there was nothing to send
  (`MailProtocol.DryRunLeavesTheProtocolAlone`).
- Two sessions on one week always end as if one had run after the other exactly when they
  are on different days, or one has nothing to write, or both or neither is a redraft, or a
  skip and a redraft each write what is already there (`PlanStore.SerialExactly`). Else
  there is real damage: a redraft that loaded the slot before it was published puts
  `draft_ready` back over the published mark (`PlanStore.RedraftErasesAPost`). Even in a
  safe pair both callers can be told success where one after the other the second would
  have been refused (`PlanStore.SkipOverwritesAPost`).

## Model

| member | source | states |
|---|---|---|
| `Credits.CreditStore.ReadBalance` | src/carigma_api/services/credits.py:64-75 | an absent row and a failed read are different answers |
| `Credits.CreditStore.ApplyDelta` | src/carigma_api/services/credits.py:77 | balance upserted and ledger row appended together or not at all; it raises exactly when the write is at fault, landed or not |
| `Credits.CreditStore.CheckAffordable` | src/carigma_api/services/credits.py:91-130 | changes nothing and answers as `Check`: strict unless the bypass is asked for |
| `Credits.CreditStore.ChargeForResult` | src/carigma_api/services/credits.py:147-193 | the store and the receipt it leaves are those of `Charge`, including the raised write and the balance that fell below cost |
| `Credits.CreditStore.GrantCredits` | src/carigma_api/services/credits.py:196-231 | the store and the answer it leaves are those of `Grant`: not granted, granted, or raised |
| `Credits.WriteKeepsConsistent` | src/carigma_api/services/credits.py:64-77 | a write that carries the running total keeps every balance the sum of its ledger rows, never negative, whether or not it lands |
| `Credits.ChargeConserves` | src/carigma_api/services/credits.py:147-193 | one charge keeps the books consistent, and the debits grow by what its receipt says, plus the price if the write raised after landing |
| `Credits.LedgerConserved` | src/carigma_api/services/credits.py:91-231 | over every one-at-a-time history from an empty store, balances equal ledger sums and are never negative, each `balance_after` is the running sum, and debits are receipts plus landed charges that raised |
| `Credits.ReceiptsAccountForDebits` | src/carigma_api/services/credits.py:184-193 | receipts account for every debit exactly when no landed charge raised |
| `Credits.ChargedOnlyForResults` | src/carigma_api/services/credits.py:133-193 | money moves if and only if the action has a price, the result is not empty, the balance was readable, present and sufficient, and the write landed |
| `Credits.NotGrantedMeansUntouched` | src/carigma_api/services/credits.py:196-231 | `None` comes back exactly for an unreadable balance and then nothing was written; otherwise a landed grant puts exactly its amount on the ledger |
| `Credits.CheckedThenCharged` | src/carigma_api/services/credits.py:91-193 | a check that passed is honoured: the charge that follows takes exactly the quoted cost |
| `Credits.PricedActions` | src/carigma_api/services/constants.py:30-84 | what each action costs, and that nothing else costs anything |
| `Credits.AffordableExactly` | src/carigma_api/services/credits.py:91-130 | an action is let through if and only if it is free, or the balance could be read and covers it, or there is no row and the bypass was asked for; unavailable exactly on a failed read of a priced action; else refused with the price and what is held |
| `Credits.AffordableMeansChargeable` | src/carigma_api/services/credits.py:91-193 | strict checks let a priced action through exactly when charging for a real result would take something |
| `Credits.ReceiptTellsTheBalance` | src/carigma_api/services/credits.py:147-193 | a receipt says exactly what left the balance and what the balance now is, except after a write that raised and landed: then nothing, and the balance before; no other user's balance or ledger sum moves |
| `Credits.GrantAnswersTheStoredBalance` | src/carigma_api/services/credits.py:196-231 | a granted balance is the one stored, the amount more than before; raised exactly when the write raised; no other user's balance or ledger sum moves |
| `Payments.PaymentStore.GetPayment` | src/carigma_api/routes/payments.py:69-79 | the user's own row for the link, or none |
| `Payments.PaymentStore.ClaimPayment` | src/carigma_api/routes/payments.py:81-102 | won exactly when the row read `created`, and then it reads `paid`; no other row changes |
| `Payments.PaymentStore.MarkPayment` | src/carigma_api/routes/payments.py:104-107 | an unconditional status write to one row, keeping the rest of it |
| `Payments.PaymentStore.GetSubscription` | src/carigma_api/routes/payments.py:109-119 | the user's own subscription row, or none |
| `Payments.PaymentStore.ClaimCycles` | src/carigma_api/routes/payments.py:121-132 | the count moves exactly when it still is what was seen, and the answer is the months won |
| `Payments.VerifyTopup` | src/carigma_api/services/payments.py:286-379 | the step-by-step function over store and ledger leaves exactly the row, ledger and answer of `TopupAlone`, which the next three pin to the provider's words; it touches nothing else, and a link without a row is answered `FAILED` |
| `Payments.DeadWordsAreWritten` | src/carigma_api/services/payments.py:120-147 | for every row, ledger and world: a visit answers `FAILED` if and only if the word is failed, expired or cancelled, and then exactly that status is written and the ledger stands still; no other word writes a dead status |
| `Payments.OtherWordsChangeNothing` | src/carigma_api/services/payments.py:132-147 | `NOT_PAID_YET` is answered if and only if the word is none of those three nor paid, and then row and ledger are as they were |
| `Payments.PaidAnswers` | src/carigma_api/services/payments.py:325-379 | to paid: already credited exactly off a row not reading `created`, `GRANT_FAILED` exactly when it did and the grant was not applied or raised, else the row's credits with the stored balance; and which status and which ledger row each leaves |
| `Payments.VerifySubscriptionCycles` | src/carigma_api/services/payments.py:382-453 | likewise against `CyclesAlone`, where the wind-back has become "row unchanged"; the two lemmas after it say what that answers and leaves |
| `Payments.ReconcileAnswers` | src/carigma_api/services/payments.py:405-453 | with a known plan: "up to date" if and only if the provider reports no more months than the count, `GRANT_FAILED` if and only if it reports more and the grant raised or was not applied, else 250 or 600 credits for each month the count advanced, with the stored balance; and what count and ledger row each leaves |
| `Payments.UnknownPlanChangesNothing` | src/carigma_api/services/payments.py:398-403 | `FAILED` if and only if nobody sells the plan, and then nothing changed |
| `Payments.CreditsFollowTheCount` | src/carigma_api/services/payments.py:382-453 | without overlap and with every grant decided, credits granted equal plan credits times the count's advance, over any sequence of reconciles |
| `Payments.OneReconcileFollowsTheCount` | src/carigma_api/services/payments.py:405-453 | a working reconcile brings the count to at least the provider's; one whose grant did not happen leaves row and ledger as they were |
| `Payments.CreditedAtMostOnce` | src/carigma_api/services/payments.py:286-379 | over any sequence of verifications of a link, at most one ledger row, of the payment's own amount, and none while the row reads `created` |
| `Payments.PaidMeansCredited` | src/carigma_api/services/payments.py:325-372 | with every grant decided, a row reading `paid` has its credits on the ledger |
| `Payments.FirstDecisiveVisitDecides` | src/carigma_api/services/payments.py:306-372 | over any sequence of visits, however grants go: the row reads `created` exactly until the first visit told failed, expired, cancelled, or paid with a readable balance, and the payment is credited exactly if that visit wrote its grant |
| `Payments.ToldAlreadyCreditedExactly` | src/carigma_api/services/payments.py:306-345 | "already added" is answered if and only if the provider says paid and the row no longer reads `created`; and with nothing credited, if and only if that first visit left it uncredited, by a dead payment or a grant that raised unwritten |
| `Payments.UncreditedForGood` | src/carigma_api/services/payments.py:306-346 | after such a visit nothing is ever credited, and every visit the provider answers `paid` is told "already added" |
| `Payments.DeadRowIsToldAlreadyCredited` | src/carigma_api/services/payments.py:306-345 | the failing input with a payment first called failed, then paid |
| `Payments.RaisedGrantIsToldAlreadyCredited` | src/carigma_api/services/payments.py:326-346 | the failing input with a grant that raised and wrote nothing: charged, uncredited, told "already added" |
| `TopupRaces.StepAgrees` | src/carigma_api/services/payments.py:286-379 | every step of any request keeps one owner at most, keeps an owner whose credit is on the ledger, and keeps the row and ledger in agreement with it |
| `TopupRaces.RunAgrees` | src/carigma_api/services/payments.py:286-379 | that agreement after every interleaving |
| `TopupRaces.CreditedAtMostOnce` | src/carigma_api/services/payments.py:286-379 | in every interleaving at most one claim is in force, none while the row says `created`, and the ledger has the payment's amount once or not at all |
| `TopupRaces.StaysCredited` | src/carigma_api/services/payments.py:327-372 | the request that credited stays the owner through any further steps |
| `TopupRaces.NeverReopened` | src/carigma_api/services/payments.py:360-372 | once credited, no later step reopens the row or credits again |
| `TopupRaces.PaidIsCreditedOrOwed` | src/carigma_api/services/payments.py:338-372 | once claims have settled, a row reading `paid` is on the ledger, or belongs to one request whose grant raised unwritten and which told its own payer "owed" |
| `TopupRaces.ToldExactly` | src/carigma_api/services/payments.py:325-345 | a request is told "already added" if and only if the provider says paid and it read `paid` or the row no longer reads `created` |
| `TopupRaces.ToldAlreadyCreditedExactly` | src/carigma_api/services/payments.py:326-372 | in every interleaving, when a payer is told "already added": nothing is credited if and only if nobody holds the claim (row dead, or `created` again since it was read) or the holder's grant is still to come, was not applied or raised unwritten; and then nothing ever will be if and only if the row is dead and nobody's or the holder's grant raised unwritten |
| `TopupRaces.UncreditedForGood` | src/carigma_api/services/payments.py:306-346 | a dead row nobody holds, or a claim whose grant raised unwritten, is never credited by any further requests |
| `TopupRaces.CreditableExactly` | src/carigma_api/services/payments.py:286-379 | an uncredited payment can still be credited by some continuation if and only if it is in neither of those states |
| `TopupRaces.DeadRowIsToldAlreadyCredited` | src/carigma_api/services/payments.py:306-345 | a schedule in which nobody ever held the claim |
| `TopupRaces.RaisedGrantIsToldAlreadyCredited` | src/carigma_api/services/payments.py:326-346 | a schedule in which the holder's grant raised unwritten, for good |
| `TopupRaces.ReleasingHolderIsToldAlreadyCredited` | src/carigma_api/services/payments.py:326-361 | a schedule in which the holder is about to release: row still `paid`, ledger empty |
| `TopupRaces.StaleReadIsToldAlreadyCredited` | src/carigma_api/services/payments.py:326-345 | a schedule in which the holder released between the read and the answer |
| `TopupRaces.AloneIsOneSchedule` | src/carigma_api/services/payments.py:286-379 | running one request straight through the machine, from any state, gives the row, ledger growth and answer of `VerifyTopup` |
| `SubscriptionRaces.ClaimTiles` | src/carigma_api/services/payments.py:408-420 | a claim appends [count, reported) to the tiling, or changes nothing |
| `SubscriptionRaces.GrantTiles` | src/carigma_api/services/payments.py:422-453 | whatever the grant answers, the span stays in force |
| `SubscriptionRaces.WindBackTiles` | src/carigma_api/services/payments.py:437-446 | a wind-back that succeeds removes the topmost span and only that |
| `SubscriptionRaces.FetchTiles` | src/carigma_api/services/payments.py:397-408 | reading the count disturbs nothing |
| `SubscriptionRaces.SpansTile` | src/carigma_api/services/payments.py:382-453 | in every interleaving the spans in force are disjoint, cover [start, count) exactly, and hold as many months as the count advanced |
| `SubscriptionRaces.NoMonthTwice` | src/carigma_api/services/payments.py:382-453 | two different requests never both put a given paid month on the ledger |
| `SubscriptionRaces.LedgerWithinForce` | src/carigma_api/services/payments.py:422-453 | months on the ledger never exceed months in force, with equality exactly when every span in force was granted |
| `SubscriptionRaces.GrantedWithinTheCount` | src/carigma_api/services/payments.py:382-453 | credits granted never exceed plan credits times the count's advance, and equal it exactly when every span in force is on the ledger |
| `SubscriptionRaces.ReportsBounded` | src/carigma_api/services/payments.py:405-413 | no open request and no stored count exceeds the largest count reported |
| `SubscriptionRaces.NeverAheadOfTheProvider` | src/carigma_api/services/payments.py:405-413 | the count never passes what the provider has reported |
| `SubscriptionRaces.ShortfallIsTheLostMonths` | src/carigma_api/services/payments.py:428-446 | once nothing is mid-way, credits granted are plan credits times the count's advance less the months of spans wound back too late and of raised grants never written |
| `SubscriptionRaces.ShortfallIsLostOrUnwritten` | src/carigma_api/services/payments.py:428-446 | so less was granted than counted if and only if there is such a span |
| `SubscriptionRaces.ToldExactly` | src/carigma_api/services/payments.py:399-413 | "up to date" is answered if and only if the provider reports no more than the count read, or the count has moved since |
| `SubscriptionRaces.UpToDateExactly` | src/carigma_api/services/payments.py:382-453 | every month from the start to a reported count is on the ledger if and only if the count has reached it and every span in force that begins below it is on the ledger |
| `SubscriptionRaces.ToldUpToDateExactly` | src/carigma_api/services/payments.py:399-413 | in every interleaving, "every paid month has been credited" is true when told if and only if that holds for what the provider reported |
| `SubscriptionRaces.LostForGood` | src/carigma_api/services/payments.py:428-446 | a month whose span was wound back too late or raised unwritten is never credited by any further reconciles |
| `SubscriptionRaces.LostMonthsAreToldCredited` | src/carigma_api/services/payments.py:399-446 | a schedule after which the next reconcile is told so with two months missing |
| `SubscriptionRaces.OverlapCanLoseMonths` | src/carigma_api/services/payments.py:437-446 | a schedule of two reconciles in which three months are counted and one is granted |
| `SubscriptionRaces.AloneIsOneSchedule` | src/carigma_api/services/payments.py:382-453 | one reconcile run straight through moves count and credits as `VerifySubscriptionCycles` promises, and never loses a span |
| `RateLimit.Bucket.constructor` | src/carigma_api/services/ratelimit.py:66-78 | zero tokens asked for means a full bucket |
| `RateLimit.Bucket.Refill` | src/carigma_api/services/ratelimit.py:80-83 | tokens grow with elapsed time up to capacity, and never for time already counted |
| `RateLimit.Bucket.Take` | src/carigma_api/services/ratelimit.py:85-90 | refills, then takes one token exactly when there is one |
| `RateLimit.Bucket.RetryAfterSeconds` | src/carigma_api/services/ratelimit.py:92-99 | refills and advises as `Advice`, taking nothing |
| `RateLimit.LevelWithinWindow` | src/carigma_api/services/ratelimit.py:80-90 | the level never exceeds what any window of past uses leaves |
| `RateLimit.LevelIsSomeWindow` | src/carigma_api/services/ratelimit.py:80-90 | and equals what one of them leaves |
| `RateLimit.BucketFollowsRecurrence` | src/carigma_api/services/ratelimit.py:66-90 | a full bucket's levels over any forward sequence of uses are the recurrence those two are about |
| `RateLimit.RefusedExactlyWhenWindowFull` | src/carigma_api/services/ratelimit.py:66-90 | for every non-decreasing sequence of uses, a take is refused if and only if it would push the admissions since some take, itself included, above capacity + rate × elapsed |
| `RateLimit.LevelAfterWait` | src/carigma_api/services/ratelimit.py:80-99 | a refused bucket holds a token after a wait exactly when the wait is at least the exact one |
| `RateLimit.AdviceIsNearlyExact` | src/carigma_api/services/ratelimit.py:92-99 | after the advised wait less than rate/1000 of a token is missing, one more second always admits, and the advice exceeds the exact wait by at most 0.999 s unless raised to its minimum of 1 s |
| `RateLimit.AdviceAdmitsExactly` | src/carigma_api/services/ratelimit.py:92-99 | the advised wait admits if and only if the exact wait is at most a second, whole, or at least a thousandth past a whole second |
| `RateLimit.AdviceCanBeShort` | src/carigma_api/services/ratelimit.py:92-99 | an exact wait of 1.0005 s is advised as 1 s and the retry refused |
| `RateLimit.RateLimiter.BucketFor` | src/carigma_api/services/ratelimit.py:136-142 | finds the key's bucket or makes a full one; every other key keeps its own, and buckets are never shared between keys |
| `RateLimit.RateLimiter.OnlyThatKey` | src/carigma_api/services/ratelimit.py:123-142 | using one key's bucket changes the table at that key only |
| `RateLimit.RateLimiter.TakeOrAdvise` | src/carigma_api/services/ratelimit.py:153-172 | the part both checks run under the lock: a take, and on refusal the advice at the later clock reading |
| `RateLimit.RateLimiter.Check` | src/carigma_api/services/ratelimit.py:136-172 | one check's decision and its whole effect on the table |
| `RateLimit.RateLimiter.CheckAgentRun` | src/carigma_api/services/ratelimit.py:144-160 | one check on the bucket of this user and agent, as `Serve`, whose answers `RefusedExactly` gives in calls; a shared upstream resource is refused as misuse and touches no bucket |
| `RateLimit.RateLimiter.CheckPublic` | src/carigma_api/services/ratelimit.py:162-172 | as `Serve` on the address key |
| `RateLimit.ServeStep` | src/carigma_api/services/ratelimit.py:136-172 | one call moves its own key's entry by one checked use and no other entry |
| `RateLimit.BucketIsItsOwnHistory` | src/carigma_api/services/ratelimit.py:123-172 | after any history on any keys, a key's bucket is its first one run through that key's own uses |
| `RateLimit.UsesRunForward` | src/carigma_api/services/ratelimit.py:80-99 | with a clock that never runs back, those uses are non-decreasing from a full bucket |
| `RateLimit.RefusalDependsOnOwnKeyOnly` | src/carigma_api/services/ratelimit.py:123-172 | over every history, a call is refused if and only if admitting it would overfill the window that starts at some call on its own key |
| `RateLimit.OtherKeysChangeNothing` | src/carigma_api/services/ratelimit.py:123-172 | erasing every call on other keys leaves a key's bucket as it was |
| `RateLimit.KeysEqualExactly` | src/carigma_api/services/ratelimit.py:152-164 | two agent keys are equal if and only if user and agent are, or one agent name ends in a colon and the other and the users make up the difference; an address key never equals an agent key |
| `RateLimit.AgentsCollideExactly` | src/carigma_api/services/ratelimit.py:152 | two different agent names can meet in one bucket if and only if one ends in a colon and the other |
| `RateLimit.AgentsInUseAreApart` | src/carigma_api/routes/_guards.py:23-25 | for the agent names the routes pass, keys are equal only for the same user and agent |
| `RateLimit.RefusedExactly` | src/carigma_api/services/ratelimit.py:31-172 | told in calls and answers only: over every history with a clock that does not run back, a call is refused if and only if, since some call of the same user and agent, or of the same address, itself included, letting it through would make more than 5 and 5 a minute, or more than 20 and 20 a minute |
| `RateLimit.OtherCallersChangeNothing` | src/carigma_api/services/ratelimit.py:144-172 | erasing every call by another user, for another agent, from another address or of the other kind leaves every answer as it was, for agent names without a colon, as all in use are |
| `RateLimit.RaisesExactly` | src/carigma_api/services/ratelimit.py:49-63 | a check raises exactly for an agent named jsearch or adzuna in any case, and then no bucket is touched |
| `RateLimit.AdviceToTheCaller` | src/carigma_api/services/ratelimit.py:92-172 | someone refused who comes back the advised seconds and one later is admitted, a second sooner than advised is refused, whatever others do; zero is advised only if nothing was refused or the token came in between; and the scope is the caller's |
| `RateLimit.ConcernsIsSameCaller` | src/carigma_api/services/ratelimit.py:152-164 | two calls use one bucket exactly when one user runs one agent in both, or one address makes both |
| `RepairKeys.GroupRows` | scripts/repair_job_keys.py:70-72 | the postings in order of first appearance, each with all its rows |
| `RepairKeys.MoveAside` | scripts/repair_job_keys.py:81-94 | one move for every row of the group but its keeper |
| `RepairKeys.Plan` | scripts/repair_job_keys.py:68-103 | the loops build exactly the moves of all groups followed by the re-keyings of all groups |
| `RepairKeys.KeeperIsBest` | scripts/repair_job_keys.py:59-65 | no row of the group outranks the keeper, and a group with a decision keeps a decided row; what outranking means is in `KeeperRules` |
| `RepairKeys.KeeperRules` | scripts/repair_job_keys.py:59-65 | over the rows' own fields, for every table: the kept row is dismissed or saved if any row of the posting is; among those alike in that, has a kit if any has; among those alike in both, none was first seen earlier, absent or empty counting as "9999"; and of rows alike in all three the first in the table is kept |
| `RepairKeys.KeeperIsFirst` | scripts/repair_job_keys.py:65 | the keeper outranks every row of its group before it in the table |
| `RepairKeys.NeedsRepairExactly` | scripts/repair_job_keys.py:76-78 | a posting is repaired if and only if some row of the same user and job is keyed otherwise than V1 keys |
| `RepairKeys.V1FormExactly` | scripts/repair_job_keys.py:50 | what the V1 pattern matches: sixteen small hexadecimal digits and perhaps one newline |
| `RepairKeys.NewestIsNewest` | scripts/repair_job_keys.py:80 | no `last_seen` of the group is later, and some row has it |
| `RepairKeys.MovesAreTheMoved` | scripts/repair_job_keys.py:76-94 | the first part of the plan holds the updates of exactly the rows that step aside |
| `RepairKeys.RekeysAreTheKept` | scripts/repair_job_keys.py:95-101 | the second part holds exactly the nonempty updates of the keepers |
| `RepairKeys.JobsFeed.UpdateById` | scripts/repair_job_keys.py:132-133 | refused exactly when two rows would share user and key; otherwise one row changes |
| `RepairKeys.JobsFeed.Repair` | scripts/repair_job_keys.py:119-133 | with distinct ids and a table the index holds for, the whole plan is applied if and only if no row is ever in the way of an update; on a well-keyed table none is |
| `RepairKeys.RowAfter` | scripts/repair_job_keys.py:132-133 | after any prefix of the plan a row is its patched self if its update was in it, else untouched |
| `RepairKeys.DuplicatesMoveFirst` | scripts/repair_job_keys.py:102-103 | once a keeper has its update, every duplicate has moved |
| `RepairKeys.DuplicateKeysNameTheirRow` | scripts/repair_job_keys.py:89 | a moved-aside key gives back the two ids it was made of and never looks like a V1 key |
| `RepairKeys.DuplicatesAreWorded` | scripts/repair_job_keys.py:89-91 | the words of the moved-aside key and of the reason, and that a reason names one keeper |
| `RepairKeys.RekeysSetWhatChanges` | scripts/repair_job_keys.py:95-101 | the update of a kept row sets only what changes, and never an empty sighting |
| `RepairKeys.KeysStayApart` | scripts/repair_job_keys.py:68-103 | two rows of a user never share a key, whatever prefix was applied |
| `RepairKeys.WellKeyedAfterEveryUpdate` | scripts/repair_job_keys.py:68-103 | after every prefix, ids and (user, key) are unique and every 16-hex key is its row's own, so the table can be repaired again |
| `RepairKeys.TouchedRowsStayApart` | scripts/repair_job_keys.py:81-101 | whatever the table was, two rows of a user that both have their updates never share a key |
| `RepairKeys.RefusedExactly` | scripts/repair_job_keys.py:132-133 | the next update is refused if and only if another row of the user has the key it writes and its own update is still to come or not planned |
| `RepairKeys.NeverRefusedExactly` | scripts/repair_job_keys.py:102-133 | the index holds after every single update if and only if no step has such a row |
| `RepairKeys.AllUpdatesApplied` | scripts/repair_job_keys.py:132-133 | at the end every row is its patched self |
| `RepairKeys.RepairLeavesOneRowAPosting` | scripts/repair_job_keys.py:68-103 | at the end a repaired group has one row on the V1 key with the group's newest `last_seen`, its other rows are dismissed, and no row outside repaired groups changes |
| `RepairKeys.KeeperHasTheNewest` | scripts/repair_job_keys.py:80-99 | the keeper ends with the latest `last_seen` of its group |
| `RepairKeys.NewestSightingIsKept` | scripts/repair_job_keys.py:80-99 | over the rows' fields: the sighting the kept row ends with is no earlier than any of its posting's, and is its own as before or a real one of theirs |
| `RepairKeys.DecisionsSurvive` | scripts/repair_job_keys.py:59-65 | a posting anyone decided on keeps a decided row |
| `RepairKeys.NothingLeftOnAnotherKey` | scripts/repair_job_keys.py:134-142 | the script's closing count of rows on other keys is zero |
| `CallScanner.Arguments` | scripts/snapshot_request_bodies.py:72-105 | the loop returns what the recursive scan returns, escapes, quotes, holes and all |
| `CallScanner.ScanBody` | scripts/snapshot_request_bodies.py:83-93 | inside a literal the scan only moves on, one deeper for each template hole |
| `CallScanner.ScanText` | scripts/snapshot_request_bodies.py:83-104 | a balanced text leaves the pieces alone and raises the depth by its holes |
| `CallScanner.ScanArguments` | scripts/snapshot_request_bodies.py:98-104 | a printed argument list is split at exactly its own commas |
| `CallScanner.ScanKeepsPieces` | scripts/snapshot_request_bodies.py:72-105 | on any text, a scan that ends keeps the pieces it had and ends the open one at a later bracket |
| `CallScanner.HoleSwallows` | scripts/snapshot_request_bodies.py:87-91 | an argument with a hole takes the separator after it into its own piece |
| `CallScanner.UndoesPrintingWithoutHoles` | scripts/snapshot_request_bodies.py:72-105 | without holes, scanning a printed call before any tail returns exactly the stripped non-blank arguments |
| `CallScanner.ScanMissesHoles` | scripts/snapshot_request_bodies.py:87-91 | with a hole anywhere the scan never returns them |
| `CallScanner.UndoesPrintingExactlyWithoutHoles` | scripts/snapshot_request_bodies.py:72-105 | for all balanced arguments: the scan undoes printing if and only if there is no hole |
| `KeyScanner.KeysOf` | scripts/snapshot_request_bodies.py:120-163 | the loop returns what the recursive reading returns |
| `KeyScanner.ReadRun` | scripts/snapshot_request_bodies.py:132-162 | a text the scanner reads without meeting a top-level comma goes into the open piece whole, and leaves its bracket and quote count where that text does |
| `KeyScanner.PrintedTextCloses` | scripts/snapshot_request_bodies.py:132-162 | balanced source text without a top-level comma, whose literals hold no quote of their own, ends that count where it began |
| `KeyScanner.PairedEscapesClose` | scripts/snapshot_request_bodies.py:133-137 | so does a literal with two escaped quotes and nothing but plain characters between them |
| `KeyScanner.StrippingChangesNothing` | scripts/snapshot_request_bodies.py:125-147 | for every body, the spaces around it make no difference to the keys |
| `KeyScanner.ReadEntries` | scripts/snapshot_request_bodies.py:144-161 | entries that close are read one name each, and one bad name makes the object unreadable |
| `KeyScanner.KeysAreTheNames` | scripts/snapshot_request_bodies.py:120-163 | the keys of an object are its entries' names in order, and it is unreadable exactly when a name is there and no identifier |
| `KeyScanner.IdentifierExactly` | scripts/snapshot_request_bodies.py:155-160 | which names are taken: letters, digits and underscores, not starting with a digit |
| `KeyScanner.KeysUndoPrinting` | scripts/snapshot_request_bodies.py:120-163 | reading an object literal returns exactly its keys in order, shorthand or with any values that read right, with or without a trailing comma |
| `KeyScanner.ClosedValuesReadRight` | scripts/snapshot_request_bodies.py:132-162 | every value on which the scanner's count of quotes and brackets closes reads right |
| `KeyScanner.ReadsRightExactly` | scripts/snapshot_request_bodies.py:120-163 | for a property with an identifier key and any value at all: every object of it and properties that read right is read as its keys in order, if and only if the scanner, having read the value and its comma, has that key and is at depth zero with no quote and an empty piece |
| `KeyScanner.ColonBetweenEscapes` | scripts/snapshot_request_bodies.py:133-161 | a value with two escaped quotes that does not close and still reads right in every object |
| `KeyScanner.BracketBetweenEscapes` | scripts/snapshot_request_bodies.py:133-161 | one that reads right alone and not before another property |
| `KeyScanner.EscapedQuoteLosesKeys` | scripts/snapshot_request_bodies.py:133-137 | an escaped quote in a value makes an object with readable keys come back with none |
| `JsonRepair.EscapePass` | src/carigma_api/services/ai.py:45-64 | the two-flag loop computes the recursive pass |
| `JsonRepair.EscapeKept` | src/carigma_api/services/ai.py:51-56 | an escape means the same before and after pass 2, and pass 2 resumes right behind it |
| `JsonRepair.BodyKept` | src/carigma_api/services/ai.py:45-64 | a string read leniently before is read strictly after, with the same contents, and refused exactly when it was refused before |
| `JsonRepair.PassTwoPreservesMeaning` | src/carigma_api/services/ai.py:45-64 | on every text, the strict reader makes of the output what the lenient reader makes of the input: same strings, same text outside them, same refusals |
| `JsonRepair.PassTwoIsIdempotent` | src/carigma_api/services/ai.py:45-64 | on every text and from every state, a second pass changes nothing |
| `JsonRepair.StrictTextIsUntouched` | src/carigma_api/services/ai.py:45-64 | text the strict reader accepts comes through unchanged |
| `JsonRepair.BodyAfterPassOne` | src/carigma_api/services/ai.py:42-43 | pass 1 leaves a string's contents alone unless a comma in it stands before a closing bracket, and then shortens them |
| `JsonRepair.ReadAfterPassOne` | src/carigma_api/services/ai.py:42-43 | the same for whole texts, and a readable text stays readable |
| `JsonRepair.RepairKeepsStringsExactly` | src/carigma_api/services/ai.py:34-64 | the whole repair of a leniently readable text is strictly readable, with the same strings if and only if no string has a comma before a closing bracket; what becomes of the text outside them is in the next row |
| `JsonRepair.RepairDropsTrailingCommas` | src/carigma_api/services/ai.py:34-64 | for every leniently readable text: what the strict reader finds outside strings afterwards is what was there before, less exactly each comma that stands directly before '}' or ']' and the spaces between |
| `JsonRepair.RepairIsExact` | src/carigma_api/services/ai.py:34-64 | with no comma dropped inside a string, the whole reading is the one before less exactly those commas and spaces |
| `JsonRepair.RepairLeavesCommaExactly` | src/carigma_api/services/ai.py:42-43 | a trailing comma is left outside strings if and only if two commas stood before one closing bracket |
| `JsonRepair.TrailingCommaLeftExactly` | src/carigma_api/services/ai.py:42-43 | the same of any reading: dropping once leaves a trailing comma exactly where one stood before a trailing comma |
| `JsonRepair.SecondCommaStays` | src/carigma_api/services/ai.py:42-43 | `[1,,]` comes back as `[1,]` |
| `JsonRepair.CommaInsideAStringIsDropped` | src/carigma_api/services/ai.py:42-43 | a string ending in ",]" loses its comma |
| `Posts.MoveIsOneUpdate` | src/carigma_api/routes/posts.py:167-183 | with distinct days a handler's effect is the edit of one slot, or nothing |
| `Posts.MoveIsOfTheDayNamed` | src/carigma_api/routes/posts.py:167-183 | the slot edited is the first one of the day named, in any case of letters; with no such slot or an edit refused nothing changes |
| `Posts.RefusedExactly` | src/carigma_api/services/posts.py:142-173 | an edit is refused if and only if the slot is published, a skipped one is marked published, a commitment is skipped without a reason, or a redraft has no drafts |
| `Posts.EditsTouch` | src/carigma_api/services/posts.py:142-173 | what each edit sets, and that it leaves every other field |
| `Posts.OneMove` | src/carigma_api/routes/posts.py:287-368 | a move leaves published slots exactly as they are and the streak number where it is or higher, and only mark-published raises it |
| `Posts.MovesNeverLoseAPost` | src/carigma_api/routes/posts.py:287-525 | over any sequence of moves a published slot stays published, and the number stays between the carried value and one more, never falls, and changes only if something was marked published |
| `Posts.StreakNumber` | src/carigma_api/services/posts.py:261-282 | the number is one more than carried exactly when the week is not paused, has a commitment, and shipped at least as many posts as it committed to |
| `Posts.SkipPausesNeverResets` | src/carigma_api/services/posts.py:261-276 | the streak stands still exactly on a paused week or one with a skipped commitment and nothing shipped, the first skipped slot says why, and the number never drops |
| `Posts.PauseExactly` | src/carigma_api/services/posts.py:202-276 | the pause is "cadence zero" if and only if the week is paused until some day, marked paused, or has cadence zero and no mark; "skipped" if and only if it is not, nothing shipped and a commitment was skipped |
| `Posts.FirstSkippedIsFirst` | src/carigma_api/services/posts.py:270-276 | the reason given is that of the earliest skipped commitment |
| `Posts.ShippedSplits` | src/carigma_api/services/posts.py:193-199 | shipped posts are shipped commitments plus shipped extras, and commitments are all shipped exactly when the counts agree |
| `Posts.AdvancesWhenEveryCommitmentShipped` | src/carigma_api/services/posts.py:278-282 | "advances when every committed slot shipped" is right if and only if nothing is missing or the optional posts do not make up for what is |
| `Posts.OptionalPostStandsIn` | src/carigma_api/services/posts.py:278-282 | a week with a skipped commitment whose streak advances |
| `PlanStore.SlotRoundTrip` | src/carigma_api/services/posts_store.py:63-105 | a slot survives its row if and only if its time label is not empty, and otherwise only the label changes |
| `PlanStore.NamesInTheTables` | src/carigma_api/services/posts_store.py:63-78 | the words the tables hold for states and reasons |
| `PlanStore.RowReadsExactly` | src/carigma_api/services/posts_store.py:81-105 | reading a row raises if and only if its state or reason is an unknown word; missing ones read as pending, no reason and nine o'clock |
| `PlanStore.LoadsExactly` | src/carigma_api/services/posts_store.py:126-200 | no week exactly without any row; raised exactly when some slot row cannot be read; slots without a week row load with cadence 2 on Monday and Thursday, no streak and no pause, and so do a week row's missing fields; every row's slot is there |
| `PlanStore.SupabasePlanStore.constructor` | src/carigma_api/services/posts_store.py:126-130 | both tables empty |
| `PlanStore.SupabasePlanStore.Load` | src/carigma_api/services/posts_store.py:132-201 | the week of the listed rows and the week row; no week at all only when both are missing |
| `PlanStore.SupabasePlanStore.SaveSlot` | src/carigma_api/services/posts_store.py:203-213 | upserts one row and leaves every other row and the week row alone |
| `PlanStore.SupabasePlanStore.SaveWeek` | src/carigma_api/services/posts_store.py:215-225 | the week row and one row per slot, later slots of a day over earlier ones |
| `PlanStore.SortKeeps` | src/carigma_api/services/posts_store.py:172-174 | sorting gives the same slots, shared dates included, in date order |
| `PlanStore.OneSortedList` | src/carigma_api/services/posts_store.py:172-174 | slots of distinct dates have one sorted list whatever order the rows came in |
| `PlanStore.SavedSlotsAre` | src/carigma_api/services/posts_store.py:215-225 | a week saved into an empty table leaves rows for exactly its slots |
| `PlanStore.ListingReadsBack` | src/carigma_api/services/posts_store.py:140-174 | whatever order the database lists the rows in, the slots read are the stored ones, each once |
| `PlanStore.SaveThenLoad` | src/carigma_api/services/posts_store.py:63-225 | a week saved into empty tables loads back as it was: the same slots in date order, drafts, skips, streak, pause, and a cadence of zero that stays zero; without shared dates the very same list |
| `PlanStore.OneRowReplaced` | src/carigma_api/services/posts_store.py:203-213 | one upsert replaces one stored slot and no other |
| `PlanStore.SaveSlotChangesOneSlot` | src/carigma_api/services/posts_store.py:203-213 | what loads after saving one slot is the old week's slots with exactly that one changed, and in place if no dates are shared |
| `PlanStore.OutcomeIsLocal` | src/carigma_api/routes/posts.py:287-328 | what a session would write depends on its own day's row only |
| `PlanStore.FoundExactly` | src/carigma_api/services/schedule.py:135-157 | a day off the signed week is found if and only if its stored slot was worked on, a scheduled day always; the slot is a commitment exactly on the week; nothing found published is written over, and no skip on the week goes without a reason |
| `PlanStore.NoEditIsLost` | src/carigma_api/routes/posts.py:287-368 | in every interleaving of sessions on pairwise different days, every finished session's edit is in the table and no other day has changed |
| `PlanStore.InterleavingsAgree` | src/carigma_api/routes/posts.py:287-368 | any two complete interleavings, one after another included, end in the same table |
| `PlanStore.PairAlwaysStands` | src/carigma_api/routes/posts.py:287-328 | whatever two sessions have done so far, each holds or has written its edit of the start, or of what the other left |
| `PlanStore.OverlapWrites` | src/carigma_api/routes/posts.py:287-328 | if both load before either saves, the second to save puts its edit of the start on top |
| `PlanStore.CompatibleExactly` | src/carigma_api/services/posts.py:142-173 | two edits of one slot, each made to the slot as it was, each end as some order of the two if and only if both or neither is a redraft or they are a skip and a redraft with nothing new to say |
| `PlanStore.SerialExactly` | src/carigma_api/routes/posts.py:287-525 | every complete interleaving of two sessions of one week ends as one of the two one-after-the-other runs, if and only if their days differ, one has nothing to write, or their edits are compatible in that sense |
| `PlanStore.RedraftErasesAPost` | src/carigma_api/routes/posts.py:411-525 | a schedule in which a redraft that loaded first ends over a published mark, as no order of the two does |
| `PlanStore.SkipOverwritesAPost` | src/carigma_api/routes/posts.py:287-368 | a schedule in which a skip lands on a published mark: the table is that of the skip first and the mark refused, though both were told success |
| `MailProtocol.SendLog.Record` | src/carigma_api/services/emails.py:272-281 | appends one log row |
| `MailProtocol.SendLog.ClaimPeriod` | scripts/send_emails.py:183-196 | won exactly when the insert works and nobody holds the claim; an insert that raises answers no, and may have taken the claim all the same |
| `MailProtocol.Mailer.Send` | src/carigma_api/services/emails.py:268-269 | one more call on the mailer, delivered or raised |
| `MailProtocol.Send` | src/carigma_api/services/emails.py:363-518 | the gates in the code's order, then claim, mail and log; log, claims, outbox and status as `SendAlone` |
| `MailProtocol.AnswersExactly` | src/carigma_api/services/emails.py:363-518 | each answer of `send` if and only if its condition on the request holds: nothing built, marketing without a link, a standing no, outside the audience, a dry run, the claim taken or lost, and then what the mailer did |
| `MailProtocol.ReceiptsAlwaysGoOut` | src/carigma_api/services/emails.py:309-322 | a welcome or a receipt is sent whatever its reader unsubscribed from, and needs no link |
| `MailProtocol.LeavesExactly` | src/carigma_api/services/emails.py:363-518 | the one log row, claim and mailer call each answer leaves, or none, and the claim namespace of each kind of mail |
| `MailProtocol.AloneIsThreeSteps` | src/carigma_api/services/emails.py:476-518 | a send run straight through in the interleaved machine is the send by itself |
| `MailProtocol.DryRunLeavesTheProtocolAlone` | src/carigma_api/services/emails.py:396-487 | a dry run neither claims nor mails, and leaves the log alone exactly when there was nothing to send |
| `MailProtocol.MailedAtMostOnce` | src/carigma_api/services/emails.py:489-518 | in every interleaving, mailers failing at will, the mailer is called at most once per user, claim namespace and period |
| `MailProtocol.OnlyPermittedMail` | src/carigma_api/services/emails.py:301-343 | every mailer call was for something built, no rehearsal, inside the audience, and if marketing, with a link and against no standing no |
| `MailProtocol.RehearsalsChangeNothing` | src/carigma_api/services/emails.py:476-487 | with the dry runs deleted from a history, every other request stands where it stood and outbox and claims are the same |
| `MailProtocol.DryRunsLeaveOutboxAndClaims` | src/carigma_api/services/emails.py:476-487 | deleting every dry run from a history changes neither outbox nor claims |
| `MailProtocol.WeeklyKeyIsTheWeek` | src/carigma_api/services/emails.py:603-622 | two days share a weekly key if and only if one Sunday-to-Saturday week holds both |
| `MailProtocol.OneWeeklyMailAWeek` | src/carigma_api/services/emails.py:603-622 | two weekly mails of one user and namespace belong to different weeks, so a retry within the week adds none |
| `Reengagement.PhaseFor` | src/carigma_api/services/reengagement.py:87-98 | for any table, the phase whose cumulative range holds the number, and none exactly from the total on |
| `Reengagement.PhaseEnds` | src/carigma_api/services/reengagement.py:87-98 | from any phase on, the search fails exactly when the number is at least the table's total |
| `Reengagement.RunRow` | scripts/send_emails.py:256-308 | one row's turn, through the one `send`, leaves row, log, claims and outbox as `Tick` |
| `Reengagement.RunPass` | scripts/send_emails.py:256-308 | the loop ticks every row once, in place, each on the mail tables the one before left |
| `Reengagement.SendsExactly` | scripts/send_emails.py:256-300 | a digest goes out if and only if the row is due, its user has lapsed and has an address, every gate passes, the week's slot is free and the claim answered so, and the mailer delivers |
| `Reengagement.SendsToTheWilling` | scripts/send_emails.py:256-300 | the same over row, pass and claims alone: seven days since a known sign-in, an address, a link, no standing no to weekly mail, inside the audience, no dry run, the week's daily slot free; and then one market digest to that address |
| `Reengagement.TickLeavesExactly` | src/carigma_api/services/reengagement.py:183-217 | what a pass leaves of a row: after a stored send one send on and due after the interval of the phase that number falls in, or finished and closed from the total on; closed as returned exactly when open, stored and not lapsed; else as it was |
| `Reengagement.ClosedForGood` | scripts/send_emails.py:256-268 | passes one at a time: a finished or returned row is never mailed or changed again, whatever tables, clocks and sign-ins follow |
| `Reengagement.EveryMailIsCounted` | scripts/send_emails.py:303-308 | digests sent are the row's count plus the ones whose update was lost |
| `Reengagement.SendsAreBounded` | src/carigma_api/services/reengagement.py:172-208 | under one table a run records at most its total (one, if that is zero), and is finished exactly when it has |
| `Reengagement.TotalBoundsSendsUnlessEmpty` | src/carigma_api/services/reengagement.py:84-98 | the table's total bounds every run's mails if and only if it is not zero |
| `Reengagement.SendsAreSpaced` | src/carigma_api/services/reengagement.py:183-230 | for every life of a row, whatever tables come and go and whatever updates are lost, each digest waits at least the interval that the latest one before it with a stored update asked for |
| `Reengagement.NextSendKeepsDistance` | src/carigma_api/services/reengagement.py:183-230 | so two digests in a row are an interval apart unless the first one's own update was lost |
| `Reengagement.SendsAreWeeksApart` | scripts/send_emails.py:277-300 | every digest's claim stays on record and no two have the same, lost updates or not |
| `Reengagement.NeverTwiceAWeek` | scripts/send_emails.py:277-300 | two digests of one row never fall in one Sunday-to-Saturday week |
| `Reengagement.LostUpdateRepeatsExactly` | scripts/send_emails.py:303-308 | after a lost update a later pass sends again if and only if nothing else stops it and its own week's slot is free, and then in another week |
| `Reengagement.NextWeeksCronRepeats` | scripts/send_emails.py:303-308 | a due digest whose update is lost goes out again from next week's cron; too early if and only if the phase after it asks for more than a week or there is none, with the code's cadence from the third digest on |
| `Reengagement.WeeklyPhase` | src/carigma_api/services/reengagement.py:78-82 | the code's cadence asks for at most a week exactly for its first three digests |
| `Reengagement.SaturdayRepeatsOnSunday` | scripts/send_emails.py:303-308 | run by hand on two days of different weeks, the repeat comes after one day whatever interval the table asks for |
| `Reengagement.DryPassChangesExactly` | scripts/send_emails.py:256-301 | a dry pass sends nothing and leaves claims and outbox alone, and changes the row if and only if it is open, its user looks returned and the update is stored |
| `Reengagement.DryPassMattersExactly` | scripts/send_emails.py:261-265 | some later pass sends differently after a dry pass if and only if that closed a row with a due date |
| `Reengagement.AloneIsOneTick` | scripts/send_emails.py:256-308 | a pass cut into reading, sending and writing, run alone, is one tick |
| `Reengagement.LateWriteLeaves` | scripts/send_emails.py:307-308 | an update that comes late counts on from the row as its pass read it, and leaves the closing date of a row closed since unless it finishes it |
| `Reengagement.ReopenedExactly` | scripts/send_emails.py:256-308 | with passes overlapping at will, a closed row can be opened again if and only if some pass that read it open has sent, or still would, and will store an update that leaves it open |
| `Reengagement.ClosedForGoodUnderOverlap` | scripts/send_emails.py:256-268 | with no pass under way a closed row keeps its fields and gets no mail, whatever passes follow and however they overlap |
| `Reengagement.SlowPassReopens` | scripts/send_emails.py:256-308 | a schedule in which a row closed as returned is mailed and opened again |
| `LineWrap.Wrap` | src/carigma_api/services/cv_templates.py:827-864 | the lines rejoin to the words, every line of two or more words fits, and no split with these two properties has fewer lines |
| `LineWrap.StaysAhead` | src/carigma_api/services/cv_templates.py:832-840 | the greedy step keeps the fewest lines and, among those, the shortest last line |
| `LineWrap.LastLinesNest` | src/carigma_api/services/cv_templates.py:832-840 | of two splits of the same words, one's last line is the end of the other's |
| `LineWrap.LinesRejoin` | src/carigma_api/services/cv_templates.py:827-864 | the lines joined with spaces are the words joined with spaces |

## Left out

- HTTP, authentication, Supabase and PostgREST, SMTP, Razorpay, HMAC, subprocesses, PDF drawing: their results are parameters, and the conditional updates and unique inserts are atomic steps.
- Messages, labels, reasons, email bodies and subjects, and every `as_dict`.
- `pack`, signature checks and `pricing_payload`: short case tables.
- Balance writes under concurrency: `charge_for_result` and `grant` read, then write, so the ledger is conserved for one-at-a-time use only. Founder adjustments are not ledger operations of the model.
- The unknown-plan answer is in `Payments`, not in the race machine, where every subscription has a plan.
- A payment's stored credits are a natural number; a row with none recorded has zero.
- Time and refill rates are reals, so the float rounding of the bucket is not modelled; a clock that runs backwards, a capacity below one and a rate of zero are outside it.
- The limiter's lock, which is taken once to find the bucket and once to use it: a check is one step.
- `v1_key`: a row carries its V1 key; the normalisation and the hash behind it are not modelled, and no update touches the fields it is made of. `apply_kit` and `kit_created_at` are one flag.
- Running the repair a second time: a `dup-` row then counts as keyed otherwise and dismissed, and may change the keeper.
- `_skip_generic`, `_path_of` and the walk over files: they only find where a call starts and what its path is.
- KeysAreTheNames: entries on which the scanner's count does not close are outside it; for properties with any value ReadsRightExactly says which read right.
- SendsAreBounded, SendsAreSpaced: passes over a row run one at a time; a stale update of an overlapping pass can set the count and the due date back as well, and overlap is only in ReopenedExactly.
- `call_claude_json`, its retries and its prompt.
- `JsonRepair` reads strings and leaves the text outside them as it is: numbers, nesting and duplicate keys are the same before and after pass 2 because that text is the same.
- Upper and lower case are ASCII only; letters outside it compare as they are.
- Dates and instants are numbers; parsing and printing them, and how the database prints `published_at`, are not modelled.
- The order of the slots a session is shown, and the loading of the signed contract: a session is given whether its day is scheduled.
- Response bodies of the post handlers, and the run bookkeeping and charge around a redraft.
- "One proactive email a calendar day": the digest claims the Sunday and the brief the day, so the claim is once per claim key.
- The ends of the calendar, where going back to a Sunday would leave it; `daily_key` is the day itself.
- Opening a new sequence on a new lapse, and the digest's content.
- The FPDF cursor and font; `LineWrap` is the two word loops with the limit as a parameter, its words given as `split` gives them: not empty and without spaces.
