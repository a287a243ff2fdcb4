# Verified model of the QMT trading agent

This project models `qmt_agent/`, the standalone agent that leases orders from a server, validates them, hands them to the QMT broker client, recovers after restarts, and collects market data. The Dafny files state what the agent does, branch by branch, and prove what it keeps over every input and every run.

| part | files |
|---|---|
| exact decimals: normal form, printer, parsers, divisibility | `Decimals.dfy`, `DecimalText.dfy` |
| the price cage | `PriceCage.dfy`, `PriceAnswers.dfy`, `ConversionBound.dfy` |
| A-share constraints, v1 and v2, and what sequences of sells can do | `Constraints.dfy`, `OddLots.dfy`, `SubmissionV2.dfy`, `ParsedAcceptance.dfy`, `Acceptance.dfy`, `AcceptanceV2.dfy`, `Refusals.dfy` |
| orders, their validation, the acknowledgement | `Orders.dfy` |
| what the adapter reads from the broker | `Remarks.dfy`, `BrokerReads.dfy` |
| the submission protocol as a state machine with crashes, and what its reports say | `Protocol.dfy`, `Reports.dfy`, `Recovery.dfy` |
| the store and the executor as classes that refine that machine; runs in which orders are sent | `StateStore.dfy`, `Executor.dfy`, `Reachability.dfy` |
| the market-data outbox, its worker class and the backfill loop | `DailyHistory.dfy`, `Outbox.dfy`, `Bridge.dfy`, `PollLoop.dfy` |

How it is put together:

- Decimals are a sign, digits and an exponent; their value is an exact `real`. Python integers are unbounded, so `int` needs no wrap-around. Floor division and remainder are only ever used with positive divisors, where Python and Dafny agree.
- Functions that the source writes as expressions are functions. The loops of the source are methods, each proved equal to a function whose properties are then proved as lemmas.
- `AgentStateStore`, `LeasedOrder`, `QmtAgentExecutor` and `BridgeWorker` are classes that update their fields. The two workers carry a ghost sequence of protocol actions. `Valid()` says that this sequence is a legal run and has reached the object's present state, so every theorem about runs holds of the objects. A constructor takes the run of the process before it; this is how restarts are covered.
- A crash may come between any two actions. It loses the phase, the pause flag and the leases, and keeps the table. What the environment answers (broker, server, clocks, STOP file, new ids, whether a write commits) is a parameter of each action.
- One process per state database is assumed. The store excludes nobody.

## Findings

The model follows the code where the code and the intent stated in its comments part. Each of these is a lemma over all inputs.

1. A second recovery pass can adopt a foreign order. The first pass stores the id of a single field-matched candidate as the row's own broker id, although it reports the row for manual review. The next pass then finds that order by id and takes over its status, even where the order's remark names another client order. `Recovery.AdoptsForeignExactly` says when, for any row and any answers in the two passes; `Recovery.ForeignAdoptionExactly` says it for a row that holds no broker id yet; `Recovery.ForeignAdoptionHappens` shows it for any two UUIDs.
2. An order is found again by its own remark exactly when its client order id is written as canonical UUID text; the same UUID in capitals or without hyphens is sent but never matched (`Remarks.OwnRemarkIsRecognised`, `Remarks.UnhyphenatedIsNotRecognised`, `Recovery.OwnOrderIsRecovered`).
3. A polling cycle posts the first 200 events, and fills come first. Everything is posted exactly when no more than 200 events are listed, and an order state exactly when the fills and the states before it are fewer than 200 (`BrokerReads.PostedExactly`); with 200 fills no state is posted at all (`BrokerReads.StatesArePostedExactly`).
4. The adapter's length estimate is made before zeros are stripped and can refuse a number that has a short canonical text (`DecimalText.AdapterRefusesPaddedNumber`, `DecimalText.AdapterTextIsCanonical`).
5. Under FORBID and under SELLABLE_BALANCE_TO_ZERO some balances cannot be sold to zero; the exact balances are given (`OddLots.ForbiddenLiquidatesExactly`, `OddLots.FullBalanceLiquidatesExactly`).
6. A backfill can collect its days more than once. A committed collection counts as made exactly when its first batch is settled in the same cycle: its post is answered, the receipt is exact, the deletion commits, and the stored count can be read (`PollLoop.CountsExactly`). It is followed by a second collection exactly when its queue drains without an exception that ends the process, the loop does not end at that moment because the collection did not count or the last receipt's count could not be read, and the next cycle that does not idle commits (`PollLoop.CollectsAgainExactly`, `PollLoop.CollectsOnceExactly`). `PollLoop.CollectsTwice` and `PollLoop.CountsAndCollectsTwice` give inputs. A deletion that fails, and a stored count of the wrong kind, end the process instead, and nothing is collected again by it.
7. The message of the history range speaks of up to 31 days; the code takes 32 (`DailyHistory.RequestIsExact`, `Bridge.RowsAreTakenExactly`).

## Model

| member | source | states |
|---|---|---|
| Protocol.RunKeepsInv | qmt_agent/executor.py:503-582 | every run, with crashes and restarts anywhere, keeps the invariant that ties rows, broker calls, the log and the pause flag together |
| Protocol.AtMostOneCall | qmt_agent/executor.py:283-284 | over all runs the broker is called at most once per client order id; a called order has a row that holds exactly what was sent and is not FAILED |
| Protocol.SentOrdersDiffer | qmt_agent/executor.py:553-554 | no two orders handed to the broker by any process of one table share a client order id |
| Protocol.CallsAreCleared | qmt_agent/executor.py:503-554 | every broker call is immediately preceded by a passing validation, the durable row, an accepted acknowledgement with a numerically equal echo, and a second passing validation with STOP absent; the order carries the envelope's exact texts and is in force at all six clocks |
| Reachability.ValidOrderIsSent | qmt_agent/executor.py:503-554 | every order that passes both validations and whose acknowledgement is accepted is sent in some run, exactly as rewritten |
| Reachability.SomeOrderIsSent | qmt_agent/executor.py:503-554 | the theorems about sent orders are not empty: under every nonempty id an accepted envelope exists and its order is sent in some run |
| Protocol.InForceBeforeCall | qmt_agent/executor.py:261-293 | with a local date that never goes back, an order is in force, and its envelope accepted, at every instant between any two of the six clocks read before its broker call |
| Protocol.ReportsAreTrue | qmt_agent/executor.py:468-501 | a report's `broker_submit_attempted` is true exactly when the broker had been called for that order before it |
| Reports.ReportsTellWhatHappened | qmt_agent/executor.py:468-582 | a report with a status directly follows the durable mark of that order with the same status and broker id; FAILED is reported only without a call, SUBMITTED and BROKER_REJECTED exactly for what the call returned, and a report without a status only for an order validated in a dry run |
| Reports.LoggedIsStored | qmt_agent/executor.py:553-582 | at the moment of a report the table holds exactly the reported status and broker id under the order's id |
| Reports.StoredOrdersAreExact | qmt_agent/executor.py:216-219 | every stored row holds an order of its own id with the exact texts of its envelope, as the validation rewrites it before it is stored |
| Protocol.FinalStatusesStay | qmt_agent/state_store.py:41-67 | a status other than SUBMITTING and RECONCILIATION_REQUIRED is changed by no later action of any run, and no row is dropped or loses its payload |
| Protocol.NeverSubmittedAgain | qmt_agent/executor.py:121-173 | once a row exists that the running process has let go of, nothing in any later process submits its order again |
| Protocol.PausedUntilResumed | qmt_agent/executor.py:584-641 | from a processed pause to a crash or a successful resume, no action leases or sends an order, or adds anything to the log |
| Recovery.OnePass | qmt_agent/executor.py:121-171 | whatever order the rows are listed in, a pass gives every unresolved row what the broker says of it alone and leaves every final row as it was |
| Recovery.UnmatchedNeedsReconciliation | qmt_agent/executor.py:125-146 | a row that no listed order identifies is left at RECONCILIATION_REQUIRED however many candidates there are; any other status comes from an identified order with that state and id |
| Recovery.FirstPassTrustsRemarksOnly | qmt_agent/executor.py:125-137 | without a stored broker id, a status is taken only from an order whose own remark names the row |
| Recovery.OwnOrderIsRecovered | qmt_agent/qmt_adapter.py:962-987 | an order sent with its own remark is found again and gives the row its state exactly when the id is canonical text |
| Recovery.ResolvedExactly | qmt_agent/executor.py:125-146 | a pass leaves a row unresolved exactly when no listed order is the first to be identified and of known state; one that is gives the row its state and id |
| Recovery.RecoveredStatusExactly | qmt_agent/executor.py:125-146 | the first identified order gives the row its id and, state by state of the broker, its one local status: a part fill is never FILLED, an unknown or undocumented state is left for reconciliation |
| Recovery.CandidateIsKeptExactly | qmt_agent/executor.py:130-171 | a row for which no order is identified keeps the id of the one listed place that has the payload's code, quantity and price to a ten-thousandth, and no id where there is none or more than one |
| Recovery.TwoPassesOfTheTable | qmt_agent/executor.py:121-171 | two passes over the table do to each unresolved row what the two answers about it alone make of it, and leave final rows |
| Recovery.UnresolvedAfterTwoExactly | qmt_agent/executor.py:125-171 | with independent answers, a row is unresolved after two passes exactly when neither found a first identified order of known state, the second going by the broker id that the first stored |
| Recovery.AdoptsForeignExactly | qmt_agent/executor.py:125-171 | for any row and any two answers, the second pass adopts a foreign order exactly when the first left the row unresolved and the second lists, first of the orders that it identifies, a foreign order of known state under the id that the first stored |
| Recovery.ForeignAdoptionExactly | qmt_agent/executor.py:130-171 | for a row without broker id, and a broker that keeps remarks: exactly when the first pass identified nothing and found one field candidate, and the second lists that candidate's id first, in a known state, under a remark that does not name the row |
| Recovery.ForeignAdoptionHappens | qmt_agent/executor.py:130-171 | for any two UUIDs, an order of unknown state under the one is adopted, filled, by the row of the other |
| Recovery.SecondPass | qmt_agent/executor.py:125-171 | over one unchanged broker list, an unidentified row stays unresolved in a second pass exactly when there was not one single field candidate of known state |
| Recovery.ForeignOrderIsAdopted | qmt_agent/executor.py:130-171 | an order whose remark names another client order is adopted by the second pass when its fields match, whatever its state was in the first |
| StateStore.AgentStateStore.MarkSubmitting | qmt_agent/state_store.py:41-46 | inserts or replaces one row with an empty broker id and leaves every other row |
| StateStore.AgentStateStore.MarkResult | qmt_agent/state_store.py:48-53 | changes status and broker id of an existing row only, never its payload, and adds no row |
| StateStore.AgentStateStore.Unresolved | qmt_agent/state_store.py:55-67 | lists each SUBMITTING or RECONCILIATION_REQUIRED row once and no other |
| Executor.QmtAgentExecutor.ValidateOrder | qmt_agent/executor.py:261-293 | the validation that rewrites the order in place between its clocks answers as its specification does, and leaves the canonical texts when it passes |
| Executor.QmtAgentExecutor.ExecuteOrder | qmt_agent/executor.py:503-582 | each statement is a legal protocol step; the broker is handed the rewritten order exactly when both validations, the row and the acknowledgement succeed; the table ends, and the report is posted, as specified in every branch |
| Executor.StatusTellsWhatHappened | qmt_agent/executor.py:516-582 | which final status and broker id stand for which outcome, in both directions; FAILED means not sent |
| Executor.OrderRows | qmt_agent/executor.py:283-284 | one order leaves all other rows alone and is sent only where the table did not know it, and then the table holds exactly what was sent |
| Executor.QmtAgentExecutor.RecoverUncertainSubmissions | qmt_agent/executor.py:121-173 | a pass, complete or cut short by a raising query, is a legal run, sends nothing, and gives each row either its old content or that of a full pass; a complete one reports each unresolved row once |
| Executor.RecoveryReportsTellTheRows | qmt_agent/executor.py:147-173 | a complete pass reports each unresolved row exactly once, with the status and broker id that the pass stores for it, and no other row |
| Executor.RecoveryReportExactly | qmt_agent/executor.py:126-167 | a row is reported as found exactly when a listed order is identified, and otherwise for manual review with no candidate, or one, exactly where no order, or one place, has the fields of the payload |
| Executor.QmtAgentExecutor.ExecuteLeases | qmt_agent/executor.py:645-650 | a failing order does not stop the next; orders sent in one cycle are pairwise different and were unknown before, even where an order is leased twice |
| Executor.QmtAgentExecutor.ProcessCommands | qmt_agent/executor.py:584-615 | the pause flag is that of the commands handled, all of them or those up to and including the first whose command or completion post raises; the table is untouched and nothing is sent |
| Executor.CutShortPauseHolds | qmt_agent/executor.py:594-615 | a pause that was handled last holds although the post of its completion failed |
| Executor.LastCommandDecides | qmt_agent/executor.py:594-600 | the last pause or resume decides: paused afterwards exactly for a pause, or a resume that meets the STOP file |
| Executor.QmtAgentExecutor.RunOnce | qmt_agent/executor.py:624-653 | a cycle is a legal run; paused, blocked or disconnected it sends nothing and changes no row; existing rows are never changed by a cycle; the pause flag afterwards is given in every case |
| Orders.PassesExactly | qmt_agent/executor.py:175-293 | a validation passes exactly when the lease shows the envelope's numbers, the order with the envelope's texts is bound and in force at three clocks, STOP is absent at both looks, every local gate holds and the store does not know the order |
| Orders.EscapesExactly | qmt_agent/executor.py:261-293 | a validation lets an exception that is not a refusal escape exactly when one of its gates raises one after everything before that gate has passed |
| Orders.AcknowledgesExactly | qmt_agent/executor.py:440-466 | the answer of the server is accepted exactly when it strictly accepts this order and echoes it with equal numbers |
| Orders.LocalIdentityOfBound | qmt_agent/executor.py:246-259 | on an order bound to an accepted envelope, only STOP and the account can fail the local checks |
| Remarks.RemarkRoundTrip | qmt_agent/qmt_adapter.py:25-43 | every 128-bit id is encoded in 23 characters and decodes to its canonical text |
| Remarks.OwnRemarkIsRecognised | qmt_agent/qmt_adapter.py:25-43 | decoding gives the submitted id back exactly when that id is canonical text |
| Remarks.UuidRoundTrip | qmt_agent/qmt_adapter.py:25-43 | every UUID, written as its canonical text, comes back from its 23-character remark unchanged |
| Remarks.UnhyphenatedIsNotRecognised | qmt_agent/qmt_adapter.py:25-43 | the 32 digits of any UUID without hyphens, and one such text, are encoded but not recognised by their own remark |
| Remarks.LegacyRemark | qmt_agent/qmt_adapter.py:33-43 | a remark that is the full canonical text is read as the same id |
| Remarks.RemarksAreInjective | qmt_agent/qmt_adapter.py:25-30 | two ids share a remark exactly when they name the same UUID |
| Remarks.OneRemark | qmt_agent/qmt_adapter.py:25-43 | one identifier and its remark, by which the order of bytes, groups and bits is fixed |
| Remarks.AlphabetsAreExact | qmt_agent/qmt_adapter.py:25-30 | the characters of remarks are those of the base64url alphabet of section 5 of RFC 4648, those of canonical texts lower-case hexadecimal, in their order |
| Remarks.DecodersAreExact | qmt_agent/qmt_adapter.py:33-43 | the decoder also takes the two last characters of the plain alphabet and hexadecimal of either case, and no other character |
| Remarks.PaddingIsIgnored | qmt_agent/qmt_adapter.py:33-43 | white space around a remark does not matter to its reader |
| BrokerReads.QueryOrder | qmt_agent/qmt_adapter.py:962-987 | the first listed order with the broker id or the remark of the client order |
| BrokerReads.FirstIdentifiedFinds | qmt_agent/qmt_adapter.py:970-987 | what is found is listed and identified; nothing is found exactly when nothing is identified |
| BrokerReads.MapIsExact | qmt_agent/qmt_adapter.py:46-61 | every documented state of the broker has its one local status, as listed by name, and an undocumented state none |
| BrokerReads.OneCandidateExactly | qmt_agent/qmt_adapter.py:989-1014 | there is one field candidate exactly when there is one place in the list with the code in either case, the quantity and the price to a ten-thousandth, and then it is the order there |
| BrokerReads.PollEvents | qmt_agent/qmt_adapter.py:1016-1087 | the polled events are the fills and then the order states, as specified per trade and order |
| BrokerReads.PolledFillsAreAttributed | qmt_agent/qmt_adapter.py:1027-1087 | with unique broker order ids, exactly the trades of orders with a readable remark are reported, each under the client order that the remark names |
| BrokerReads.PolledStatesAreExact | qmt_agent/qmt_adapter.py:1016-1087 | exactly the states of orders with a readable remark and a documented state are reported, each under the client order of the remark, with the order's id and the meaning of its state |
| BrokerReads.UndocumentedIsSilent | qmt_agent/qmt_adapter.py:1024-1052 | an order in an undocumented state gives no event |
| BrokerReads.PostedExactly | qmt_agent/executor.py:617-622 | everything is posted exactly when no more than 200 events are listed, the i-th order state exactly when the fills and the states before it are fewer than 200, and in its place |
| BrokerReads.StatesArePostedExactly | qmt_agent/executor.py:617-622 | a cycle posts an order state exactly when there is one and fewer than 200 fills |
| Decimals.DecimalComponents | qmt_agent/price_submission_range.py:326-365 | the two loops compute the specified components |
| Decimals.ComponentsKeepValue | qmt_agent/price_submission_range.py:326-365 | the components stand for the same number and have no trailing zero |
| Decimals.NormalFormIsUnique | qmt_agent/price_submission_range.py:326-365 | two coefficients without trailing zero for one number are equal, with equal exponents |
| Decimals.ComponentsDecideEquality | qmt_agent/price_submission_range.py:326-365 | equal values have the same components or the same refusal, and equal components mean equal values |
| Decimals.IsMultipleIsExact | qmt_agent/execution_constraints.py:192-215 | `_is_multiple` holds exactly when one number is an integer times the other, for any exponents and signs |
| DecimalText.PredictedLengthIsReal | qmt_agent/price_submission_range.py:354-379 | the length predicted before rendering is the length of the text, so the 257-character bound refuses exactly the longer texts |
| DecimalText.PrintThenParse | qmt_agent/price_submission_range.py:368-379 | printing and parsing gives the same value for every number that can be printed |
| DecimalText.ParseThenPrint | qmt_agent/execution_submission_v2.py:357-368 | parsing wire text and printing gives the same text |
| DecimalText.PrintingDecidesEquality | qmt_agent/price_submission_range.py:368-379 | printable numbers have equal texts exactly when they are equal, whatever their exponents |
| DecimalText.WireTextsAreThePrints | qmt_agent/execution_submission_v2.py:211-212 | the wire pattern within 257 characters accepts exactly the prints of nonnegative numbers |
| DecimalText.BothParsersAgree | qmt_agent/execution_constraints.py:116-182 | the wider v1 pattern with its sign test accepts the same texts as v2, with the same results |
| DecimalText.WholeNumberIsExact | qmt_agent/execution_constraints.py:185-189 | on wire text the exponent test decides true integrality |
| DecimalText.AdapterTextIsCanonical | qmt_agent/qmt_adapter.py:417-438 | where the adapter prints a number it prints the canonical text; it gives up exactly when its estimate passes the bound, and the estimate is never below the real length |
| DecimalText.AdapterRefusesPaddedNumber | qmt_agent/qmt_adapter.py:417-438 | a number with a one-character canonical text that the estimate refuses, for every long enough padding |
| PriceCage.RoundsTheFraction | qmt_agent/price_submission_range.py:482-487 | the integer division rounds the exact fraction, for any representation of it |
| PriceCage.RoundHalfUpIsNearest | qmt_agent/price_submission_range.py:482-487 | the result is the only nearest integer, and of two the one further from zero |
| PriceCage.BoundaryRefinesClosedForm | qmt_agent/price_submission_range.py:490-517 | on a tick, the boundary computed in money and ticks equals the closed form in ticks for both sides |
| PriceCage.BuyBoundaryIsMonotone | qmt_agent/price_submission_range.py:490-506 | rises with the reference and with ratio, widening and distance |
| PriceCage.SellBoundaryIsMonotone | qmt_agent/price_submission_range.py:507-517 | rises with the reference, falls with the three allowances, and stays at or above the floor |
| PriceCage.ReferenceIsInside | qmt_agent/price_submission_range.py:490-517 | the reference is never above the buy boundary, and not below the sell boundary exactly when the floor is not above it |
| PriceCage.TickMultipleIsExact | qmt_agent/price_submission_range.py:520-525 | the returned Decimal is exactly that many ticks |
| ConversionBound.BoundaryIsConvertible | qmt_agent/price_submission_range.py:520-525 | for every valid rule and on-tick reference the boundary's coefficient has fewer than 4300 digits, so its conversion to text cannot raise an exception that the caller does not expect |
| PriceCage.CalculatePriceSubmissionRange | qmt_agent/price_submission_range.py:169-304 | the two loops over quotes answer as specified |
| PriceCage.DecisionsAreValid | qmt_agent/price_submission_range.py:423-472 | every decision that is built passes `_validate_decision`, for every rule, side, stage and quotes |
| PriceCage.DecisionOffTick | qmt_agent/price_submission_range.py:253-274 | a reference is denied as off the tick exactly when it is no multiple of it |
| PriceCage.CalculatedRange | qmt_agent/price_submission_range.py:186-304 | a calculated reference is the first present quote in side order with only confirmed-absent ones before it; the boundary is the closed form |
| PriceAnswers.ReferenceBySide | qmt_agent/price_submission_range.py:238-304 | a calculated sell is caged around the bid exactly when it is present, around the ask exactly when the bid is confirmed absent and the ask present, a buy the other way round, and both around the latest price and then the previous close after confirmed absences |
| PriceAnswers.ReasonsAreExact | qmt_agent/price_submission_range.py:186-304 | each reason of a denial stands for exactly one state of rule, quotes, stage and used quote |
| PriceAnswers.InvalidQuoteIsNamed | qmt_agent/price_submission_range.py:213-237 | where a quote is invalid, the answer names the first invalid one of ask, bid, latest price and previous close |
| AcceptanceV2.UsableInputsExactly | qmt_agent/price_submission_range.py:382-421 | a rule is valid exactly when its tick is positive, its sell ratio below one, its numbers within the length bound and its allowances nonnegative within 257 digits, a quote exactly when it holds a positive number within the bound where it is present and none where it is not |
| PriceCage.LaterQuotesDoNotMatter | qmt_agent/price_submission_range.py:213-252 | valid quotes after the deciding one do not change the decision |
| Constraints.ValidateEffectiveConstraints | qmt_agent/execution_constraints.py:354-669 | the validator with its loop over two clocks answers as specified |
| Constraints.AcceptanceAtClock | qmt_agent/execution_constraints.py:541-572 | for an accepted envelope, acceptance at any other clock is decided by the ends of its evidence and the local date alone |
| Constraints.AcceptedTimesAreAnInterval | qmt_agent/execution_constraints.py:258-270 | the accepted times are one half-open interval from `as_of` to the least expiry, the session close or the end of the date |
| Constraints.AcceptedBetween | qmt_agent/execution_constraints.py:541-572 | acceptance at two clocks implies acceptance at every instant between |
| Constraints.AcceptedLimitPrices | qmt_agent/execution_constraints.py:575-596 | with all else fixed, a limit price is accepted exactly when it is a positive wire number on the tick and in the band |
| Acceptance.AcceptsExactly | qmt_agent/execution_constraints.py:354-669 | the v1 validator accepts exactly the envelopes whose texts are the numbers they should be and fit together, whose decision, rule, evidence and position belong to the order, that are timely at both clocks and of an open market, with reference and limit at whole ticks in the band and a share count that the rule of the side permits |
| AcceptanceV2.AcceptsExactlyV2 | qmt_agent/execution_submission_v2.py:456-605 | the v2 validator accepts exactly the envelopes bound by their outer hashes whose inner envelope is admissible, and whose limit is so many ticks on the inner side of the closed-form boundary around the quote of the side, named outright, in the band |
| AcceptanceV2.CalculatedExactly | qmt_agent/price_submission_range.py:186-304 | on usable texts the range is calculated exactly from the first quote after confirmed-absent ones, where it is present, at whole ticks, and its boundary can be written within the length bound |
| OddLots.AcceptedQuantities | qmt_agent/execution_constraints.py:597-669 | the decimal checks accept exactly the share counts of the integer rule; the modulo test is exact |
| OddLots.AcceptedEnvelopeSells | qmt_agent/execution_constraints.py:597-669 | every accepted sell envelope satisfies that rule, so the sequence results speak of it |
| OddLots.OddRemainderOnce | qmt_agent/execution_constraints.py:645-669 | under SELL_ODD_REMAINDER_ONCE at most one sell of a run is off the step, and afterwards every balance is on it |
| OddLots.FullBalanceIsLast | qmt_agent/execution_constraints.py:636-644 | under SELLABLE_BALANCE_TO_ZERO an exceptional sell is the last and leaves nothing |
| OddLots.ForbiddenKeepsRemainder | qmt_agent/execution_constraints.py:597-635 | under FORBID no run changes the balance modulo the step |
| OddLots.NoSharesStranded | qmt_agent/execution_constraints.py:404-408 | under SELL_ODD_REMAINDER_ONCE without restricted shares, every balance can be brought to zero by accepted sells |
| OddLots.FullBalanceLiquidatesExactly | qmt_agent/execution_constraints.py:636-644 | under SELLABLE_BALANCE_TO_ZERO a balance can be brought to zero exactly when one order can hold it or a regular quantity exists |
| OddLots.ForbiddenLiquidatesExactly | qmt_agent/execution_constraints.py:597-635 | under FORBID a balance can be brought to zero exactly when it is on the step and lies between the least and the greatest total of the fewest orders that can hold it, its quotient by the greatest regular order rounded up |
| SubmissionV2.AcceptedByBoth | qmt_agent/execution_submission_v2.py:561-605 | v2 acceptance implies v1 acceptance at the same clock, with a usable cage whose reference is in the band |
| Refusals.RefusalIsExplained | qmt_agent/execution_constraints.py:354-669 | every reject code of the v1 validator stands for a fact of the envelope, its texts, times or share counts that is as the code says |
| Refusals.RefusalIsExplainedV2 | qmt_agent/execution_submission_v2.py:456-605 | so does every reject code of the v2 validator, of the outer binding, the inner envelope or the price submission |
| SubmissionV2.AcceptedBetweenV2 | qmt_agent/execution_submission_v2.py:561-605 | acceptance by v2 at two clocks implies acceptance at every instant between |
| SubmissionV2.CageInTicks | qmt_agent/execution_submission_v2.py:456-541 | reference and boundary of a usable cage are whole ticks, the boundary the closed form |
| SubmissionV2.AcceptedPrices | qmt_agent/execution_submission_v2.py:456-541 | with all else fixed, the accepted prices are exactly the tick multiples on the inner side of the boundary and in the band |
| SubmissionV2.ReferenceIsAccepted | qmt_agent/execution_submission_v2.py:456-541 | the printed reference is an accepted buy price, and an accepted sell price exactly when the floor is not above it |
| DailyHistory.ReadDailyHistory | qmt_agent/bridge_worker.py:115-219 | the nested loops over assets and rows answer as the fold over all rows does |
| DailyHistory.ReadAcceptsExactly | qmt_agent/bridge_worker.py:157-201 | a read is accepted exactly when every row of an asked asset is of a day in range and no two rows of one asset and day differ in flag, in having prices, or in a number |
| DailyHistory.HistoryIsFaithful | qmt_agent/bridge_worker.py:157-219 | each asset and day has one status and at most one bar; a bar is there exactly where a row has all four prices, with that row's close as price and its open, high, low, volume and amount; a flag is -1, 0 or 1 exactly where the native one is that whole non-boolean number; at most 6400 of each |
| DailyHistory.EarlierRowsComeFirst | qmt_agent/bridge_worker.py:190-219 | bars and statuses come in the order in which their rows are first read |
| DailyHistory.RequestIsExact | qmt_agent/bridge_worker.py:115-127 | a request is valid exactly for 1 to 200 different codes without blanks around them and 1 to 32 days that are past |
| Outbox.Sliced | qmt_agent/bridge_worker.py:386-399 | the slices by offsets of 500 are the specified chunks |
| Outbox.ChunksAreExact | qmt_agent/bridge_worker.py:386-399 | chunks of 1 to 500, all but the last full, that join to the rows again |
| Outbox.RunsConserve | qmt_agent/bridge_worker.py:303-426 | in every run, what was removed followed by the outbox is what was committed, in order |
| Outbox.RemovedOnExactReceipt | qmt_agent/bridge_worker.py:303-320 | in every run, each removed batch was at the head when a receipt came with its id, success or noop, no failed sample and all its samples taken, and the deletion committed |
| Outbox.ServerKeepsEachOnce | qmt_agent/bridge_worker.py:303-320 | with unique ids, the posts without adjacent repeats are a prefix of what was committed, at most one beyond what was removed, and a deduplicating server keeps each batch once and in order |
| Bridge.BridgeWorker.Flush | qmt_agent/bridge_worker.py:303-320 | the head is posted at most once and removed exactly when an answer comes with its id, success or noop, nothing failed and as many taken as it has samples, and the deletion commits; the stored count is read afterwards; nothing is committed |
| Bridge.BridgeWorker.Insert | qmt_agent/bridge_worker.py:385-420 | one collection commits all its batches or none, and posts nothing; an oversized text is retried, a failing statement or a repeated id ends the process |
| Bridge.InsertsAllOrNothing | qmt_agent/bridge_worker.py:385-420 | the transaction ends well exactly when every text is within its bound, no id repeats and no statement fails |
| Bridge.BridgeWorker.RunOnce | qmt_agent/bridge_worker.py:322-426 | a cycle is a legal run and returns and leaves what is specified in every branch |
| Bridge.CycleAnswersExactly | qmt_agent/bridge_worker.py:322-426 | what a returning cycle says: blocked exactly under the plan or the local pause, flushed exactly on a queue, else collected or nothing to collect, with the plan's interval, the stored count of the head's exact receipt, and all but the head pending |
| Bridge.PlanIsFollowedExactly | qmt_agent/bridge_worker.py:324-327 | a plan is followed exactly where it arrives with an interval from 1 to 60; which failures are retried and which end the process |
| Bridge.RowsAreTakenExactly | qmt_agent/bridge_worker.py:343-384 | the source's rows are taken exactly for 1 to 200 assets, past days, an answer within the budget, and statuses of days before the day of collection |
| Bridge.BatchesAreLabelled | qmt_agent/bridge_worker.py:385-419 | each batch has the id of its place, its kind, the instant of collection, its 500 rows or statuses, and, for statuses of a backfill, the window that was asked for |
| Bridge.BatchesHoldTheCollection | qmt_agent/bridge_worker.py:386-419 | the batches hold the rows and then the statuses, all and in order, 1 to 500 each |
| Bridge.HistoryIsWithinBudget | qmt_agent/bridge_worker.py:376-377 | a daily history never meets the row budget and makes at most 26 batches |
| PollLoop.Poll | qmt_agent/bridge_cli.py:60-83 | the loop ends as specified, retrying after the exceptions that it catches and ending the process on any other; it ends by itself only on an empty outbox, and commits as many collections as specified |
| PollLoop.QuotesGoOn | qmt_agent/bridge_cli.py:60-83 | without a backfill the loop never ends by itself |
| PollLoop.BackfillEndsAfter | qmt_agent/bridge_cli.py:60-76 | with an enabled plan and an acknowledging server, a backfill that finds k batches and collects n ends after exactly k + max(1, n) cycles |
| PollLoop.CountsExactly | qmt_agent/bridge_worker.py:303-426 | a cycle that commits a collection counts as having collected exactly when the post of the first batch is answered, its receipt is exact, the deletion commits and the stored count can be read |
| PollLoop.CollectsAgainExactly | qmt_agent/bridge_cli.py:60-83 | over any cycles, a collection is followed by another exactly when its queue drains, the loop does not end then because the collection did not count or the last count could not be read, and the first cycle after that which does not idle commits |
| PollLoop.CollectsOnceExactly | qmt_agent/bridge_cli.py:60-83 | over any cycles and from any queue, the loop commits exactly one collection when there is a first one that is not followed by another, and none exactly when there is no first one |
| PollLoop.CollectsTwiceExactly | qmt_agent/bridge_cli.py:60-83 | where everything later goes through, the loop collects once exactly when the first batch is settled or its failure ends the process, and twice otherwise |
| PollLoop.CollectsTwice | qmt_agent/bridge_cli.py:60-83 | two backfills that collect twice: a lost first post, and an exact receipt with an unreadable count; and one that collects once |
| PollLoop.CountsAndCollectsTwice | qmt_agent/bridge_cli.py:60-83 | a backfill whose first batch is settled and that collects again, because the last count could not be read |
| PollLoop.FailedPostCollectsAgain | qmt_agent/bridge_cli.py:60-83 | the number of cycles after which a backfill ends whose first batch is not settled and is retried |

## Left out

- Content hashes and canonical JSON: a digest is an opaque text of which only equality matters, and the steps that recompute it are not part of this model.
- Wire shapes: key sets, token and digest patterns, type tests and duplicate keys; envelopes and orders are typed values.
- Date and time parsing and the time-zone database: instants and days are integers, the local date is a function of the instant that is assumed monotone where that matters.
- Orders.PassesExactly: the local trading session, the comparison of the local tick with the approved evidence, the price deviation and the cash or position check are opaque gates, because they use a rounding Decimal context or foreign snapshots.
- SubmissionV2.AcceptedPrices: that the outer decision lists the range reason codes is not part of the decision's model.
- The bit-length guard of `_bounded_nonnegative_integer`: the digit bound that the model keeps implies it.
- Remarks.RemarkRoundTrip: UUID texts with braces or a `urn:` prefix, digits with underscores, a sign or a `0x` prefix, which Python's integer parser also takes, characters outside the base64 alphabets, which the decoder skips, and white space beyond ASCII.
- BrokerReads.PollEvents: event ids, times, quantities and prices of the events are forwarded unchanged and not modelled; polling changes no stored row.
- BrokerReads.QueryOrder: the candidate search by fields compares prices and volumes as exact numbers; upper-casing is ASCII.
- The delivery of reports and recovery events, which the code does not promise: rows are marked before events are posted.
- Reports.ReportsTellWhatHappened: event ids, event types, messages and times of reports and recovery events are not modelled.
- Refusals.RefusalIsExplained: where several facts of one envelope are wrong, the code is that of the check that the validator makes first; that order is in the functions and is not stated apart from them.
- The texts of the executor's own exceptions: only whether they refuse or escape matters.
- A second process on the same state database: nothing in the store excludes it, and no theorem here covers it.
- Executor.QmtAgentExecutor.RunOnce: heartbeat, snapshot and event posts only matter for whether they raise; a blocked cycle posts its events after the commands.
- Bridge.BridgeWorker.RunOnce: the text length of a batch is a parameter, batch ids come from the environment, and a source without `daily_history` is not modelled.
- `XtDataSource.quotes` and its subscriptions, number and date parsing of SDK scalars: a source row comes with its parsed day and number texts.
- PollLoop.Poll: the `--once` exit codes, the sleep times and the interrupt; the loop lasts as long as the given cycles.
- Reads of the outbox that fail: such a read raises an exception that ends the process, with the outbox as it is.
- HTTP, signing, pairing, SQLite and SDK internals, the fake adapter, and everything outside `qmt_agent/`.
