# Settlement construction plans — a Dafny model

This project models the construction engine of a settlement-building simulation.

- **Settlements.** A settlement is a village, a city or a metropolis. Its class fixes the plan's construction capacity: 1, 2 or 3 facilities at once.
- **Facility types.** A facility type is an immutable catalog entry. It has a name, a category (life quality, economy or environment), a price and three impact scores. The price doubles as the build time in ticks.
- **Facilities.** A facility is one facility type being built for a settlement. Its counter starts at the price and drops by one per tick. The facility becomes operational when the counter reaches 0.
- **Selection policies.** A selection policy picks the next catalog entry to build. There are four:
  - *naive* walks the catalog round-robin;
  - *balanced* picks the entry that keeps the three running score totals closest together;
  - *economy* picks the next economy entry after the previous pick, wrapping around;
  - *sustainability* does the same with environment entries.

  Each policy counts its selections and keeps a log of the names it picked.
- **Plans.** A plan owns a policy, a queue of facilities under construction, a list of completed facilities and three score totals. In one step, an available plan first tops its queue up to capacity, then turns busy when the queue is full. Every plan then advances each queued facility by one tick. Facilities that finished move to the completed list, their scores are added to the totals, and the plan becomes available again.

Modules, one per source unit:

- `Results`: option, result and outcome types. Error paths use them.
- `Settlements`: settlement classes and the construction capacity.
- `Facilities`:
  - facility types and the pure lifecycle function `Tick`;
  - the class `Facility`, whose in-place `Step` is proved against `Tick`.
- `SelectionPolicies`:
  - the pure selection `Pick` and the state update `AfterPick`, for all four policies;
  - the scanning loops `ScanBalanced` and `ScanCategory`, as methods proved against `Pick`;
  - the class `SelectionPolicy`, whose `SelectFacility` is proved against `Pick` and `AfterPick`;
  - lemmas about runs of selections.
- `PlanSpec`:
  - the plan step on values (`PlanStep`, `TopUp`, `Advance`);
  - the plan invariant and its preservation.
- `Plans`: the class `Plan`. It holds a sequence of `Facility` objects for the completed list and another for the queue. Every state-changing method is proved against the `PlanSpec` functions on the plan's `View()`.

Where the code is evidently wrong, the model contains both the behaviour as written and the corrected behaviour; see "Findings".

An available plan tops up only at the start of a step, and a busy plan only advances. So a place in the queue freed by a facility that completes in a step is filled only in the next step (`PlanSpec.PlanStep`).

## Model

| member | source | states |
|---|---|---|
| Settlements.ConstructionCapacity | src/Plan.cpp:7 | the capacity is the settlement class's ordinal plus one: between 1 and 3, and different for each class |
| Facilities.Initial | src/Facility.cpp:46-50 | a new facility keeps its type and settlement; when its price is positive it starts under construction with a valid counter |
| Facilities.Tick | src/Facility.cpp:68-76 | with a counter of 0 or less, nothing changes; otherwise the counter drops by one; a valid facility stays valid; an operational facility stays as it is; the status only ever changes to operational, with the counter at 0 |
| Facilities.TicksCountDown | src/Facility.cpp:68-76 | after n ticks a valid facility has max(0, counter − n) left, is still valid, and is operational exactly when n has reached its former counter |
| Facilities.TicksMonotone | src/Facility.cpp:69-70 | over time the counter never increases and never drops below 0 |
| Facilities.CompletesAfterPrice | src/Facility.cpp:46-50 | a new facility with a positive price becomes operational after exactly `price` ticks, and not before |
| Facilities.ZeroPriceNeverCompletes | src/Facility.cpp:69-74 | a facility whose price is 0 or less never changes under ticking and never becomes operational |
| Facilities.Facility.constructor | src/Facility.cpp:40-44 | building from parts gives the initial facility of that type: under construction, with the counter at the price |
| Facilities.Facility.FromType | src/Facility.cpp:46-50 | building from a catalog entry gives the initial facility of that entry for the settlement |
| Facilities.Facility.Copy | src/Facility.cpp:53-57 | the copy has the same type, settlement, status and counter |
| Facilities.Facility.Step | src/Facility.cpp:68-76 | the new state is `Tick` of the old state, and the returned status is the new status |
| Facilities.Facility.SetStatus | src/Facility.cpp:78-80 | the status is overwritten and the counter is unchanged |
| SelectionPolicies.Imbalance | src/SelectionPolicy.cpp:65-73 | the distance is the largest of the three pairwise score differences, and it is 0 exactly when the three totals are equal |
| SelectionPolicies.FirstMinIndex | src/SelectionPolicy.cpp:75-87 | the result is the first index at which the smallest distance occurs |
| SelectionPolicies.ScanBalanced | src/SelectionPolicy.cpp:52-99 | the balanced scan loop returns the first entry of least imbalance, which is the specification `FirstMinIndex` |
| SelectionPolicies.ScanBalancedAsWritten | src/SelectionPolicy.cpp:59-90 | the scan loop as written, which scores the entry it currently holds instead of entry i, returns `BalancedPickAsWritten`, that is index 0 |
| SelectionPolicies.ScanAsWrittenFrom | src/SelectionPolicy.cpp:59-90 | the as-written scan, from round i on, always returns a valid catalog index |
| SelectionPolicies.ScanAsWrittenStaysFirst | src/SelectionPolicy.cpp:59-90 | once the held entry is 0 and the recorded minimum is entry 0's distance, the as-written scan keeps entry 0 to the end |
| SelectionPolicies.BalancedPickAsWritten | src/SelectionPolicy.cpp:52-99 | the balanced pick as written is always entry 0, whatever the catalog and the totals |
| SelectionPolicies.AsWrittenBalancedMissesMinimum | src/SelectionPolicy.cpp:61-63 | for a catalog [(2,0,0), (0,0,0)] and equal totals, the pick as written is entry 0, while the intended pick is entry 1 |
| SelectionPolicies.ScanStart | src/SelectionPolicy.cpp:125-132 | the category scan starts at 0 when nothing was picked yet or the last pick was the final entry, and right after the last pick otherwise; the start is always inside the catalog |
| SelectionPolicies.CategoryPickFrom | src/SelectionPolicy.cpp:137-154 | scanning cyclically from a start and offset, the result is the first entry of the category, or none if no such entry lies ahead |
| SelectionPolicies.CategoryPick | src/SelectionPolicy.cpp:137-154 | the first entry of the category in cyclic order from the start; none exactly when the catalog has no entry of the category |
| SelectionPolicies.ScanCategory | src/SelectionPolicy.cpp:196-215 | the wrapping scan loop returns `CategoryPick`: the first matching entry cyclically after the start, or none exactly when no entry matches |
| SelectionPolicies.CategoryPickIsFirst | src/SelectionPolicy.cpp:137-154 | an entry of the category that no matching entry precedes, in cyclic order, is the one picked |
| SelectionPolicies.Pick | src/SelectionPolicy.cpp:10-29 | a selection succeeds exactly when the policy has an eligible entry, and then it is a valid catalog index |
| SelectionPolicies.PickMeaning | src/SelectionPolicy.cpp:118-161 | naive picks the entry after the previous one, wrapping to 0; balanced picks the first entry of least imbalance; economy and sustainability pick the first entry of their category cyclically after the previous pick |
| SelectionPolicies.AfterPick | src/SelectionPolicy.cpp:11-23 | after a pick the policy keeps its kind, its selection count goes up by one, and the picked name is appended to its log; the cursor of a naive, economy or sustainability policy moves to the pick; a balanced policy's totals gain the pick's scores (the corrected update; see Findings) |
| SelectionPolicies.BalancedAfterPickAsWritten | src/SelectionPolicy.cpp:52-99 | as written, the balanced policy never adds the picked entry's scores to its running totals |
| SelectionPolicies.AsWrittenBalancedRepeats | src/SelectionPolicy.cpp:52-99 | as written, a balanced policy picks the same entry again on the next selection |
| SelectionPolicies.PicksValid | src/SelectionPolicy.cpp:118-161 | a policy with an eligible entry yields n valid catalog indices in n selections |
| SelectionPolicies.SelectionsCount | src/SelectionPolicy.cpp:181 | after n selections the policy keeps its kind and its count has grown by exactly n |
| SelectionPolicies.SelectionsLog | src/SelectionPolicy.cpp:218-219 | after n selections the log has grown by the names of the n picked entries, in order |
| SelectionPolicies.EligibleAfterPicks | src/SelectionPolicy.cpp:137-154 | selecting never changes whether a policy has an eligible entry |
| SelectionPolicies.PicksSnoc | src/SelectionPolicy.cpp:118-161 | the picks of n+1 selections are the picks of n selections followed by one more pick from the state they leave |
| SelectionPolicies.NaiveRoundRobinFrom | src/SelectionPolicy.cpp:13-26 | from a previous index `last`, selection k of a naive policy picks entry (last + 1 + k) mod K |
| SelectionPolicies.NaiveRoundRobin | src/SelectionPolicy.cpp:8-26 | a fresh naive policy picks entries 0, 1, …, K−1, 0, 1, … |
| SelectionPolicies.BalancedTotalsTrackPicks | src/SelectionPolicy.cpp:52-99 | after n selections the balanced totals are the starting totals plus the scores of every picked entry |
| SelectionPolicies.BalancedAlternates | src/SelectionPolicy.cpp:52-99 | with a catalog of one economy point and one environment point and equal totals, the balanced policy picks 0 and then 1 |
| SelectionPolicies.BalancedPickAmongTwo | src/SelectionPolicy.cpp:84-87 | with two entries, the balanced pick is 1 exactly when entry 1's imbalance is strictly smaller |
| SelectionPolicies.SingleEligibleAlwaysPicked | src/SelectionPolicy.cpp:125-158 | when exactly one entry has the policy's category, every selection of an economy or sustainability policy picks it |
| SelectionPolicies.PolicyCode | src/Plan.cpp:199-215 | the code is one of "nve", "bal", "eco" and "env", and it parses back to a policy of the same kind |
| SelectionPolicies.PolicyCodeRoundTrip | src/Plan.cpp:199-215 | a policy's code names its kind and parses back to that kind; only "nve", "bal", "eco" and "env" parse |
| SelectionPolicies.SelectionPolicy.Naive | src/SelectionPolicy.cpp:8 | a new naive policy: previous index −1, count 0, empty log |
| SelectionPolicies.SelectionPolicy.Balanced | src/SelectionPolicy.cpp:44-50 | a new balanced policy: the given starting totals, count 0, empty log |
| SelectionPolicies.SelectionPolicy.Economy | src/SelectionPolicy.cpp:116 | a new economy policy: previous index −1, count 0, empty log |
| SelectionPolicies.SelectionPolicy.Sustainability | src/SelectionPolicy.cpp:177 | a new sustainability policy: previous index −1, count 0, empty log |
| SelectionPolicies.SelectionPolicy.SelectFacility | src/SelectionPolicy.cpp:179-223 | the pick is `Pick` of the old state; on success the state becomes `AfterPick`; on failure the state is unchanged |
| SelectionPolicies.SelectionPolicy.Clone | src/SelectionPolicy.cpp:107-113 | the clone is a new object with an equal state: kind, cursor or totals, count and log |
| SelectionPolicies.SelectionPolicy.Code | src/Plan.cpp:199-215 | the code parses back to the policy's own kind |
| PlanSpec.AddAllTotals | src/Plan.cpp:147-150 | adding the scores of the facilities completed in a step to the totals of those completed before gives the totals of the whole completed list (the corrected update; see Findings) |
| PlanSpec.TickQueued | src/Plan.cpp:91-96 | a queued facility, after its tick, is either done (it had one tick left) or still under construction, for the same type and settlement |
| PlanSpec.FinishedPendingMembers | src/Plan.cpp:93-95 | finished facilities are operational, pending ones are not, and both come from the ticked queue |
| PlanSpec.FinishedPendingPartition | src/Plan.cpp:91-97 | the finished and the pending facilities together are exactly the ticked queue: none is lost or duplicated |
| PlanSpec.Rounds | src/Plan.cpp:81-85 | n rounds of the top-up loop change only the queue and the policy; the queue grows by n when the policy has an eligible entry, and nothing changes otherwise |
| PlanSpec.Wanted | src/Plan.cpp:81 | the number of facilities to start is what fills the queue to capacity, or 0 when it is full |
| PlanSpec.TopUp | src/Plan.cpp:79-85 | topping up fails exactly when the queue has room and the policy has no eligible entry |
| PlanSpec.RoundsStartPicks | src/Plan.cpp:81-85 | n rounds append the facilities of the policy's next n picks to the queue and advance the policy by n selections |
| PlanSpec.TopUpRounds | src/Plan.cpp:81-85 | the top-up is exactly as many rounds as the queue has room for |
| PlanSpec.MarkBusy | src/Plan.cpp:87-89 | the plan turns busy exactly when its queue holds `cap` facilities; nothing else changes |
| PlanSpec.AdvanceOne | src/Plan.cpp:92-96 | one facility's tick leaves the policy alone and puts the facility either on the completed list, exactly when its tick made it operational, or back on the queue |
| PlanSpec.Advance | src/Plan.cpp:91-97 | the advance leaves the policy alone, keeps the completed list as a prefix, and loses no facility: completed plus queued counts are unchanged |
| PlanSpec.AdvanceFromAll | src/Plan.cpp:91-97 | walking a queue one facility at a time ticks all of it, moves the finished ones to the completed list in order with their scores, and keeps the rest queued in order |
| PlanSpec.AdvanceInOrder | src/Plan.cpp:103-110 | the one-at-a-time walk of the queue equals the whole-queue advance |
| PlanSpec.PlanStep | src/Plan.cpp:77-114 | a step fails, changing nothing, exactly when an available plan with room in its queue has no eligible selection; a busy plan's step never fails and never touches its policy |
| PlanSpec.NewPlanInvariant | src/Plan.cpp:5-15 | a new plan (available, no facilities, zero scores) satisfies the plan invariant |
| PlanSpec.TopUpFills | src/Plan.cpp:79-85 | topping up fills the queue to capacity, keeps the old queue as a prefix, appends facilities of catalog types for the settlement, counts one selection per started facility, and changes nothing else |
| PlanSpec.AdvanceEachOnce | src/Plan.cpp:91-97 | the advance keeps the completed list as a prefix; the newly completed and still queued facilities are exactly the ticked queue; newly completed ones are operational; queued ones are not; the plan is available if any finished; the policy is untouched |
| PlanSpec.AdvanceKeepsLists | src/Plan.cpp:91-97 | the advance never grows the queue, keeps completed facilities done and queued ones in progress for the settlement, and keeps the scores equal to the totals of the completed list |
| PlanSpec.TopUpKeepsLists | src/Plan.cpp:79-89 | after topping up and marking busy, an available plan has a queue of exactly `cap` facilities in progress for the settlement and is busy; its completed list and scores still satisfy the invariant |
| PlanSpec.PlanStepPreservesInvariant | src/Plan.cpp:77-114 | every successful step preserves the plan invariant: queue within capacity, busy exactly when full, completed facilities done, queued ones in progress, scores equal to the totals of the completed list |
| PlanSpec.CompleteScoresAsWritten | src/Plan.cpp:148-150 | the overwritten scores equal the corrected sum exactly when the plan's previous scores are all zero |
| PlanSpec.AsWrittenScoresForgetEarlier | src/Plan.cpp:148-150 | with the scores overwritten, a plan that completes two facilities reports values other than their totals |
| PlanSpec.TopUpGuardAsWritten | src/Plan.cpp:81 | the guard as written holds whenever at most `cap` facilities are completed, even on a full queue where no facility is wanted |
| PlanSpec.AsWrittenTopUpNeverStops | src/Plan.cpp:81 | with the guard testing the completed list, the guard still holds after any number of rounds while the queue grows by one per round |
| Plans.FirstIndex | src/Plan.cpp:132-139 | the search stops at the first occurrence, or at the end if there is none |
| Plans.RemoveFirstRemoves | src/Plan.cpp:141-143 | removing the first occurrence takes exactly one copy out when present and changes nothing otherwise |
| Plans.RemoveFirstAt | src/Plan.cpp:132-143 | removing the first occurrence of x from a + [x] + b gives a + b |
| Plans.CopyAll | src/Plan.cpp:28-31 | the copies are new, distinct objects with the same values as the originals, in order |
| Plans.CopyLists | src/Plan.cpp:28-36 | both lists are copied into new, distinct objects with the originals' values |
| Plans.Plan.constructor | src/Plan.cpp:5-15 | a new plan is available and valid, with no facilities, zero scores, the capacity of its settlement's class and the given policy and catalog |
| Plans.Plan.Copy | src/Plan.cpp:17-41 | the copy is valid and observably equal to the original, with a new policy object and new facility objects |
| Plans.Plan.Step | src/Plan.cpp:77-114 | a successful step moves the plan to `PlanStep` of its old view; a failed one returns the error of `PlanStep` and changes nothing; the policy object is kept; validity is preserved |
| Plans.Plan.FillQueue | src/Plan.cpp:79-85 | the top-up loop ends with the view `TopUp` gives, or with its error and nothing changed; the old queue objects stay in front and every added facility is new |
| Plans.Plan.QueueSelected | src/Plan.cpp:82-84 | one selection appends a new facility of the picked entry to the queue and advances the policy, or fails and changes nothing |
| Plans.Plan.AdvanceQueue | src/Plan.cpp:91-97 | walking the queue moves the plan to `Advance` of its old view and leaves the policy alone |
| Plans.Plan.AdvanceFacility | src/Plan.cpp:92-96 | one facility ticks; if it became operational it moves to the completed list, its scores are added and the plan becomes available; otherwise nothing else changes |
| Plans.Plan.AddFacility | src/Plan.cpp:131-150 | the facility is appended to the completed list, its first occurrence is removed from the queue, and its scores are added to the totals (the corrected update: the source overwrites them, see Findings) |
| Plans.Plan.SetSelectionPolicy | src/Plan.cpp:71-74 | the plan takes the new policy; its facility lists, status and scores are unchanged |
| Plans.Plan.LifeQualityScore | src/Plan.cpp:59-61 | the life-quality score is the total over the completed facilities |
| Plans.Plan.EconomyScore | src/Plan.cpp:63-65 | the economy score is the total over the completed facilities |
| Plans.Plan.EnvironmentScore | src/Plan.cpp:67-69 | the environment score is the total over the completed facilities |
| Plans.Plan.IsAvailable | src/Plan.cpp:191-197 | true exactly when the status is available, which for a valid plan means the queue has room |
| Plans.Plan.SelectionPolicyCode | src/Plan.cpp:199-215 | the code parses back to the kind of the plan's policy |

## Left out

- Text output: `toString`, `printStatus` and the facility and settlement printers are not modelled. A policy's text log is modelled as the list of picked names.
- The balanced policy's log line at src/SelectionPolicy.cpp:92 adds a number to a string literal, which is pointer arithmetic. The model appends the picked name, like the other policies.
- Actions, the simulation driver, `main`, configuration parsing and all I/O are not part of this model. Neither are settlement management outside the construction capacity or the plan's `toString`.
- Destructors, `delete` and ownership are not modelled. The model has no deallocation; copies are new objects, and the copy constructors allocate new objects, as `fresh` in their contracts shows.
- Integers are unbounded. The 32-bit `int` overflow of counters and score totals is not modelled.
- SelectionPolicies.ScanStart: cursors outside −1..K−1, which the source never produces, start the scan at 0. The source would index out of range.
- SelectionPolicies.Pick: an economy or sustainability policy with no eligible entry, and any policy on an empty catalog, returns a failure. The source loops forever or reads outside the catalog.
- Plans.Plan.Step: when a selection fails, the step returns that failure and leaves the plan unchanged. Success or failure does not depend on the policy's cursor, so the failure is detected before any change.
- Plans.Plan.AdvanceQueue: the source erases from the queue while a range-for loop walks it (src/Plan.cpp:91-97), which is undefined behaviour. The model walks the queue once, in order, ticking each facility exactly once and moving the finished ones. That is the evident intent.
- Plans.Plan.SelectionPolicyCode: the `dynamic_cast` chain is replaced by the policy's variant tag. The "unknown" case cannot arise, because there are exactly four kinds.
- Plan getters for the identifier, settlement name, facility lists and catalog are the class's fields; they have no separate members.
- Facilities.Facility.Step follows src/Facility.cpp:68-76. The inline `step` in include/Facility.h:80-93 would keep decrementing a negative counter; it differs only for a negative price.
- Plans.Plan.catalog: the plan keeps the catalog it was created with. In the source it refers to the simulation's catalog, which an add-facility action can grow later (src/Action.cpp:118-126). Entries added after a plan was created are therefore not seen by its policy: the naive wrap-around and the economy and sustainability scans run over the original entries only.
- Plans.Plan.Step: the contract gives the completed facilities by value through `View()`; it does not state that the completed `Facility` objects stay the same objects.
- The plan's `settlement` is reduced to its name and the capacity derived from its class.

## Findings

| source | as written | input that shows it | evidently intended | confidence | as-written member | corrected member |
|---|---|---|---|---|---|---|
| src/Plan.cpp:148-150 | completing a facility overwrites the plan's three scores with that facility's scores | two completed facilities, the first with a non-zero life-quality score: the plan reports only the second one's scores | scores accumulate over all completed facilities | not executed | PlanSpec.AsWrittenScoresForgetEarlier | PlanSpec.AddAllTotals |
| src/Plan.cpp:81 | the top-up loop tests the size of the completed list, which the loop never changes | a new plan (0 completed facilities) with any policy that can select: the loop never ends and the queue grows past capacity | fill the queue up to capacity | not executed | PlanSpec.AsWrittenTopUpNeverStops | PlanSpec.TopUpFills |
| src/SelectionPolicy.cpp:61-63 | each round scores `current`, which stays at entry 0, instead of entry i | catalog [(2,0,0), (0,0,0)] with equal totals: returns entry 0 (imbalance 2) instead of entry 1 (imbalance 0) | pick the first entry of least imbalance | not executed | SelectionPolicies.AsWrittenBalancedMissesMinimum | SelectionPolicies.ScanBalanced |
| src/SelectionPolicy.cpp:52-99 | the balanced policy never adds the picked entry's scores to its running totals | catalog [(0,1,0), (0,0,1)] with equal totals: picks entry 0 again on the second selection | totals track every pick, so the selections balance out (0 then 1) | not executed | SelectionPolicies.AsWrittenBalancedRepeats | SelectionPolicies.BalancedAlternates |
