# Verified model of the SLA accounting core

This project models the accounting core of an SLA contract for the Soroban ledger, and
proves what it keeps over every run. Six parts of the repository are covered:

- the contract in `sla_calculator/src/lib.rs`: the penalty and reward arithmetic, the
  configuration rules, the result history with its retention and pruning, the statistics,
  the two-step admin handover, the monthly compliance rate and the integer square root;
- the dispute module: filing, voting, quorum, expiry and the division of bonds;
- the two parent forests, outage correlation and dependency propagation, with their
  unbounded ancestor walks, child indexes, grouping and propagation;
- collateral locks with partial payouts;
- three fast forms of an answer and the simple form each must agree with: the batch
  calculator and batch downtime getter, the paginated event filter, the event index;
- two companions: the base64 encoder of the SDK and the snapshot canonicaliser.

## How it is laid out

| files | contents |
|---|---|
| `Ints`, `SlaTypes`, `MapSums` | fixed-width integers with wrap, saturation and truncating division written out; the shared types; sums over maps |
| `SlaMath`, `Calendar`, `Isqrt` | the arithmetic of `lib.rs` |
| `ContractState`, `Contract`, `ContractRuns` | the contract: its entry points as functions on stored state; the imperative class proved equal to them; what every run keeps |
| `OperatorRuns`, `MigrationRuns` | the operator handover and the emergency migration over whole runs |
| `ContractEffects`, `DisputeEffects`, `LastWrites` | what each call accomplishes, seen from outside: field by field, when it is refused, and what later calls find |
| `DisputeState`, `Disputes`, `DisputeRuns` | the dispute module in the same three layers |
| `Forest`, `OutageTags`, `Dependencies` | the theory of parent maps and the two modules built on it |
| `CollateralState`, `Collateral` | collateral locks |
| `Batch`, `EventQueries`, `IndexRuns` | the fast forms and their simple counterparts |
| `Base64`, `Normalize` | the companions |

An entry point that updates storage is a class method, proved to produce exactly the state
and result of a specification function (`Do...`). The theorems about runs quantify over all
sequences of calls, by any callers with any arguments, and are proved about those functions;
so a method that skipped a step or took another branch would no longer meet its contract,
and a function that did would no longer satisfy the theorems: those about runs, and those that
say of each single call what it stores, answers and leaves alone.

Modelling decisions:

- The workspace sets no `overflow-checks`, so plain operators wrap in the release build and
  are modelled as wrapping (`Ints.WrapI128` and the like); `saturating_*` saturates.
- A host trap (unwrapping nothing, dividing by zero) is the result `Trap`.
- Ledger time, the caller and the configuration digest are parameters; the digest is an
  arbitrary function of the configuration map.
- A run of the contract is any sequence of the entry points of `lib.rs` that change what is
  modelled, role, migration and configuration calls included; a run of the dispute module may
  also see the stored admin change between its own calls.
- The order in which the host iterates over a map is left open: totals do not depend on it,
  and grouping takes it as an argument.

## Where the code and its description differ

Each of these is proved: with an input that shows the difference where there is one, and with
the exact condition under which the described behaviour holds.

- `renounce_admin` is documented as irreversible, but `initialize` succeeds again afterwards
  and clears history and statistics (`ContractRuns.RenounceReopensInitialize`); nothing else
  ends a vacancy (`ContractRuns.OnlyInitializeEndsVacancy`).
- A proposal of a new operator outlives the admin who made it, unlike one of a new admin. It
  can be accepted in a vacancy (`OperatorRuns.OperatorChangesInVacancy`) and under an admin who
  never made it (`OperatorRuns.OperatorForcedOnNewAdmin`);
  `OperatorRuns.PendingOperatorIsSittingAdminsExactly` says when it is the sitting admin's.
- Without an operator `calculate_sla` is said to fail as unauthorized; it fails as not
  initialized (`OperatorRuns.UnauthorizedExactly`).
- The emergency migration raises the stored version to one that every entry point refuses,
  `migrate` included. From then on nothing changes except by a new `initialize`, which needs a
  vacant office (`MigrationRuns.MigrationLocks`, `MigrationRuns.LockedChangesExactly`,
  `MigrationRuns.LockedForeverUnderAdmin`).
- `import_config_map` checks the keys only, so it can store an unordered configuration
  (`ContractRuns.ImportCanBreakOrder`); a run keeps the order exactly when it imports no such
  map (`ContractRuns.ConfigStaysOrderedExactly`).
- An MTTR of 0 pays nothing, while an MTTR of 1 pays the reward of the tier it falls in (the
  top one from a threshold of 3 minutes up). So the amount never rises with the MTTR from 0 on
  exactly when that reward rounds to nothing and the attainable tiers pay in falling order
  (`SlaMath.ZeroMttrBreaksMonotonicity`,
  `SlaMath.NeverRisesFromZeroExactly`, `SlaMath.FirstMinuteEarnsNothingExactly`).
- The comment on age pruning promises to keep entries recorded at 0; the code does not
  (`ContractRuns.ZeroTimestampIsPruned`, `ContractRuns.AgePruningExactly`).
- A lowered retention limit does not shorten the history: a recording drops at most one entry
  (`ContractRuns.RecordingDropsAtMostOne`, `ContractRuns.LoweredLimitLeavesExcess`). The history
  stays within its limit exactly as long as no limit is set below the number of entries
  (`ContractRuns.HistoryStaysWithinLimitExactly`).
- The monthly rate accepts years below 1970 and answers them as 1970, and its day counter is an
  i32 that wraps in the year 5881581. A window is right exactly for a year from 1970 on whose
  day number fits (`Calendar.EarlyYearAnswersAs1970`, `Calendar.WindowFailsLate`,
  `Calendar.WindowExactlyFrom1970WhileDayFits`).
- The three-vote slashing of a frivolous dispute is never reached, so the arbitration pool
  stays empty (`DisputeRuns.QuorumIsSecondVote`, `DisputeRuns.ReachableDisputes`).
- `open_dispute` overwrites a dispute of the same id and ignores the evidence hash handed
  in, and `dismiss_dispute` checks no status and pays nobody: the bond of an active dispute
  is stranded in both cases, and in no other (`DisputeRuns.OverwritingStrandsBond`,
  `DisputeRuns.DismissalStrandsBond`, `DisputeRuns.NothingStrandedExactly`). A dispute that
  shows as dismissed has been paid exactly when a resolution is noted on it
  (`DisputeRuns.PaidExactlyWhenNoted`).
- The arbitrator fee is a plain i128 product. It is the promised 5% exactly for bonds up to a
  five-hundredth of the i128 range (`DisputeRuns.FeeIsFivePercentExactly`); beyond that a
  settlement may still balance while its voters get nothing (`DisputeRuns.WrappedFeeIsLost`)
  or pay out more than the bond (`DisputeRuns.LargeBondCreatesMoney`), and it balances exactly
  when the wrapped product is sound (`DisputeRuns.BalancedExactlyWhenFeeSound`).
- A payout stays stored when its dispute's id is filed anew; it belongs to the present filing
  exactly when a resolution is noted (`DisputeRuns.PayoutOutlivesFiling`,
  `DisputeRuns.PayoutIsCurrentExactly`).
- Nothing ever puts a dispute under review, so an escalated dispute cannot be escalated again
  and the third level is never reached (`DisputeRuns.EscalatedOnceOnly`).
- The deadline of a dispute wraps at the end of the u64 clock
  (`DisputeRuns.LateFilingExpiresAtOnce`), and only there
  (`DisputeRuns.ExpiryNeedsFullWindowExactly`).
- The total of locked collateral is added up in an i128 and wraps. It is locks minus payouts
  minus releases exactly while that fits (`CollateralState.TwoLocksWrapTheTotal`,
  `CollateralState.TotalIsConservedExactly`).
- Re-parenting leaves a stale entry in the former parent's child list
  (`OutageTags.StaleChildAfterReparenting`, `OutageTags.ChildrenAreCurrentExactly`), and an
  outage propagates along such entries too (`Dependencies.FormerChildIsDegraded`,
  `Dependencies.OnlyChildrenAffectedExactly`).
- `clear_outage` undoes `propagate_outage` exactly when no child had been flagged before
  (`Dependencies.ClearTakesEarlierFlag`, `Dependencies.ClearUndoesPropagationExactly`).
- An event index is not rebuilt when the history moves on, by a pruning or by a recording at
  the retention limit. Its answer is then shifted and incomplete in a known way, along any run
  (`EventQueries.StaleIndexIsShifted`, `IndexRuns.KeptIndexAlongRun`), and right exactly when
  the old entries match as the new ones do, which after mere pruning means for queries without
  a match (`EventQueries.StaleIndexMisleads`, `EventQueries.KeptIndexIsRightExactly`,
  `EventQueries.PrunedHistoryIndexIsRightExactly`).
- `simulate_sla` traps on a zero threshold, which an import can store, and answers where the
  view refuses a penalty that is not positive (`Batch.ZeroThresholdTrapsSimulation`,
  `Batch.SimulationAgreesExactly`); so does the batch calculator, which also refuses an MTTR of
  0 and does not cap the duration (`Batch.FreeBreachDisagrees`,
  `Batch.CalculatorsAgreeExactly`).
- `toBase64` is exact for character codes below 256 only (`Base64.WideCharactersCollide`,
  `Base64.RoundTripExactly`).
- The canonicaliser loses a property named `__proto__` (`Normalize.ProtoDifferenceIsLost`), and
  nothing else but order and volatile keys (`Normalize.NormalFormIsCanonical`,
  `Normalize.OnlyOrderAndNoiseAreLost`).

## Model

| member | source | states |
|---|---|---|
| `SlaMath.ValidateConfigExact` | sla_calculator/src/lib.rs:1807-1906 | With an ordered configuration in force, an update is accepted if and only if the severity is canonical and the configuration after the update is ordered again: bounds per tier, thresholds strictly rising, penalties strictly falling from critical to low |
| `SlaMath.CrossCheckExact` | sla_calculator/src/lib.rs:1807-1906 | The loop against the four stored tiers accepts exactly the tiers that fit above every lower and below every higher severity |
| `SlaMath.NoSaturation` | sla_calculator/src/lib.rs:1599-1673 | Within the validated bounds neither the penalty nor the reward product reaches the saturation of i128 |
| `SlaMath.ResultByProducts` | sla_calculator/src/lib.rs:1599-1673 | Every field of the result under a validated tier, with the tiers told apart by products instead of the rounded ratio: penalty exactly overtime times rate, reward the hundredth part of base times multiplier, top below half and excellent below three quarters of the threshold |
| `SlaMath.ResultShape` | sla_calculator/src/lib.rs:1599-1673 | Status, payment type, rating and sign of the amount always say the same thing, namely whether the MTTR exceeds the threshold, and the amount is bounded both ways |
| `SlaMath.SeverityDominates` | sla_calculator/src/lib.rs:1599-1673 | Under an ordered configuration, whenever a lower severity is violated a higher one is too at the same MTTR, with a strictly larger penalty |
| `SlaMath.NeverRisesExactly` | sla_calculator/src/lib.rs:1608-1659 | From one minute up the amount never rises with the MTTR if and only if the multipliers of the tiers that whole minutes can attain are in falling order |
| `SlaMath.NeverRisesFromZeroExactly` | sla_calculator/src/lib.rs:1608-1659 | Over all MTTRs, 0 included, it never rises if and only if, besides, one minute earns nothing |
| `SlaMath.FirstMinuteEarnsNothingExactly` | sla_calculator/src/lib.rs:1644-1659 | Which tier one minute earns, by the threshold alone, and that it earns nothing exactly when base times its multiplier is below 100 |
| `SlaMath.OrderedMultipliersNeverRise` | sla_calculator/src/lib.rs:1608-1659 | top >= excel >= good is enough for that, whatever the threshold |
| `SlaMath.ZeroMttrBreaksMonotonicity` | sla_calculator/src/lib.rs:1608-1620 | The default critical tier fails it: 0 minutes pay 0, one minute pays 1500 |
| `SlaMath.SimulatedPointsExactly` | sla_calculator/src/lib.rs:1575-1590 | The simulation's basis points are the MTTR in ten-thousandths of the threshold, rounded down, if and only if that fits a u32; then they reach 10000 from the threshold on |
| `SlaMath.SimulatedPointsFit` | sla_calculator/src/lib.rs:1575-1590 | Under any cap up to 429496 minutes they always fit |
| `Isqrt.IntegerSqrt` | sla_calculator/src/lib.rs:2605-2632 | For every u128 the binary search with the guarded division test returns r with r*r <= n < (r+1)*(r+1), without overflow on the way |
| `Isqrt.DivisionTestIsSquareTest` | sla_calculator/src/lib.rs:2605-2632 | Testing mid <= n / mid is testing mid*mid <= n |
| `Isqrt.SquareRootIsUnique` | sla_calculator/src/lib.rs:2603-2632 | That specification determines the result |
| `Calendar.YearLoopIsClosedForm` | sla_calculator/src/lib.rs:1258-1265 | From 1970 on the year loop equals the closed form of section 4.16 of POSIX.1-2017 |
| `Calendar.FirstDayIsPosix` | sla_calculator/src/lib.rs:1258-1284 | The year and month loops together give the day number of the first of the month by that closed form |
| `Calendar.WindowExactlyFrom1970WhileDayFits` | sla_calculator/src/lib.rs:1253-1299 | For every accepted year and month, the window starts at the true midnight of the first, by the closed form, if and only if the year is 1970 or later and the day number fits the i32 counter, and then ends where the month does |
| `Calendar.EarlyYearAnswersAs1970` | sla_calculator/src/lib.rs:1258-1265 | May 1969 is answered with the window of May 1970 |
| `Calendar.WindowExactlyWhenDayFits` | sla_calculator/src/lib.rs:1258-1299 | From 1970 on the window starts right if and only if the day number fits the counter |
| `Calendar.WindowFailsLate` | sla_calculator/src/lib.rs:1258-1299 | A concrete month, January 5881581, whose window is wrong |
| `Calendar.MonthsAbut` | sla_calculator/src/lib.rs:1258-1299 | Each month ends where the next begins, across year ends too |
| `Calendar.LaterMonthStartsLater` | sla_calculator/src/lib.rs:1258-1299 | Months do not overlap: any later month starts at or after the end of an earlier one |
| `Calendar.ExactlyOneMonth` | sla_calculator/src/lib.rs:1258-1299 | Every timestamp lies in one month and no other |
| `Calendar.ExactlyOneWindow` | sla_calculator/src/lib.rs:1258-1318 | In the range of the counter every timestamp lies in exactly one of the windows computed for the years from 1970 on whose day numbers fit |
| `Calendar.WindowAnswersExactly` | sla_calculator/src/lib.rs:1258-1318 | Which of all accepted years and months, wrapped ones included, answer for a timestamp |
| `Calendar.EarlyYearsAnswerExactly` | sla_calculator/src/lib.rs:1258-1318 | A year below 1970 answers for the same days counted from 1 January 1970, by its own month lengths |
| `Calendar.EarlyYearsIntrudeExactly` | sla_calculator/src/lib.rs:1258-1318 | Some year below 1970 answers for a timestamp as well if and only if it lies in the first 366 days |
| `Calendar.CountYearDays` | sla_calculator/src/lib.rs:1258-1265 | The year loop computes the days before the year, wrapped to i32 |
| `Calendar.CountMonthDays` | sla_calculator/src/lib.rs:1266-1282 | The month loop adds the days before the month |
| `Calendar.ComputeMonthWindow` | sla_calculator/src/lib.rs:1258-1299 | Both loops and the conversion to seconds yield the specified window for every year and month |
| `ContractState.LookupFinds` | sla_calculator/src/lib.rs:1497-1503 | The duplicate scan finds nothing exactly when no stored entry has the id, and otherwise an entry with it |
| `ContractState.LookupIsUnique` | sla_calculator/src/lib.rs:1497-1503 | With distinct ids it returns the one entry of that outage |
| `ContractState.KeepSinceIsSuffix` | sla_calculator/src/lib.rs:2237-2275 | In a time-sorted history, pruning by age cuts off a prefix: an entry is recent enough exactly when it is among the last ones kept |
| `ContractRuns.HistoryIsSuffixOfLog` | sla_calculator/src/lib.rs:1440-1550 | After any run the history is a contiguous suffix of everything recorded since initialisation, the statistics are the fold of that whole log, ids are distinct, entries are in time order, and the length is within the largest limit so far in force, hence 5000 |
| `ContractRuns.RunKeepsHistory` | sla_calculator/src/lib.rs:2203-2275 | The inductive invariant behind it, for every call in any order |
| `ContractRuns.StepKeepsHistory` | sla_calculator/src/lib.rs:1440-1550 | One call of any kind keeps that invariant and moves its clock to the call |
| `ContractRuns.RunKeepsTally` | sla_calculator/src/lib.rs:1440-1550 | Whatever the clock does, stored ids are distinct and the statistics are the fold of the log |
| `ContractRuns.HistoryMovesOn` | sla_calculator/src/lib.rs:1515-1533 | Between two points of a run without a restart the history only loses its oldest entries and gains others at the end |
| `ContractRuns.RecordingDropsAtMostOne` | sla_calculator/src/lib.rs:1515-1533 | Recording drops at most one entry, leaves the history within its limit exactly when it was within it before, and stores the new result whenever the limit is positive |
| `ContractRuns.LimitStepExactly` | sla_calculator/src/lib.rs:2384-2392 | From a history within its limit every call ends within it, except a new limit below the number of entries |
| `ContractRuns.HistoryStaysWithinLimitExactly` | sla_calculator/src/lib.rs:1515-1533 | The history is within the limit in force at every point of a run if and only if no call of it set a limit below the number of entries stored then |
| `ContractRuns.LoweredLimitLeavesExcess` | sla_calculator/src/lib.rs:2384-2392 | A run that ends with 51 entries under a limit of 50 |
| `ContractRuns.PruningKeepsNewest` | sla_calculator/src/lib.rs:2203-2231 | Both count-based prunings keep the newest entries, as many as fit, and the queue form returns how many it removed |
| `ContractRuns.AgePruningExactly` | sla_calculator/src/lib.rs:2237-2275 | Age pruning keeps an entry exactly when it is not older than the minimum age, sorted or not, and an entry recorded at 0 is no exception |
| `ContractRuns.ZeroTimestampIsPruned` | sla_calculator/src/lib.rs:2237-2275 | A run in which an entry recorded at 0 is pruned |
| `ContractRuns.FoldIsClampedTotal` | sla_calculator/src/lib.rs:2046-2068 | Folding saturating updates over results of the right sign gives the exact counts and sums, clamped once at the end |
| `ContractRuns.StatsAreTotals` | sla_calculator/src/lib.rs:2046-2068 | So in every run whose successful imports carried no negative rate the stored statistics are the clamped totals of the log, whatever the clock |
| `ContractRuns.RunKeepsSigns` | sla_calculator/src/lib.rs:1622-1659 | In such a run every logged amount has the sign of its status |
| `ContractRuns.RetainedResultAnswers` | sla_calculator/src/lib.rs:1497-1513 | A retained result answers a repeated call under the same threshold and cap, with no effect on the state |
| `ContractRuns.ReplayReturnsStoredResult` | sla_calculator/src/lib.rs:1497-1513 | The same between any two points of a run: replaying a successful call whose result is still stored returns that result, and neither history nor statistics move |
| `ContractRuns.ImmediateReplayIsNoOp` | sla_calculator/src/lib.rs:1497-1513 | In every reachable state a call that succeeds can be replayed at once, at any time of day, to the same result and state |
| `ContractRuns.LoggedResultWasCalculated` | sla_calculator/src/lib.rs:1440-1550 | Every logged result was calculated by one call of the run, made by the operator of that moment while the contract was not paused and no entry of that id was stored, and returned to it |
| `ContractRuns.GovernanceNeedsAdmin` | sla_calculator/src/lib.rs:1693-1716 | A caller who is not admin changes no configuration, pause flag or limit, the admin only as the named successor, the operator exactly by accepting a ripe proposal or renouncing, the version exactly with a ripe migration key, and history and statistics only as operator of an unpaused contract |
| `OperatorRuns.OperatorChangesExactly` | sla_calculator/src/lib.rs:547-589 | All the ways in which the operator changes, whoever calls |
| `OperatorRuns.AdminChangesExactly` | sla_calculator/src/lib.rs:632-666 | All the ways in which the admin changes |
| `OperatorRuns.UnauthorizedExactly` | sla_calculator/src/lib.rs:1706-1716 | A calculation is refused as unauthorized if and only if someone else is operator; without an operator it fails as not initialized |
| `ContractRuns.DefaultsAreOrdered` | sla_calculator/src/lib.rs:1725-1772 | The default configuration is ordered |
| `ContractRuns.RunKeepsConfigOrdered` | sla_calculator/src/lib.rs:860-926 | A run whose successful imports, if any, were ordered maps keeps the stored configuration ordered |
| `ContractRuns.ConfigStaysOrderedExactly` | sla_calculator/src/lib.rs:860-976 | The configuration is ordered at every point of a run if and only if every import that succeeded brought an ordered map |
| `ContractRuns.StepKeepsConfig` | sla_calculator/src/lib.rs:860-926 | One call other than an unordered import keeps the order |
| `ContractRuns.RunOrdersPenalties` | sla_calculator/src/lib.rs:1599-1673 | Hence in every such reachable state, imports included, a higher severity is violated whenever a lower one is, with a strictly larger penalty |
| `ContractRuns.ImportCanBreakOrder` | sla_calculator/src/lib.rs:959-976 | An import that stores an unordered configuration |
| `ContractRuns.ImportKeepsOrderExactly` | sla_calculator/src/lib.rs:959-976 | An import succeeds exactly when it is non-empty with canonical keys, and leaves the store ordered exactly when what was imported is ordered |
| `ContractEffects.SetConfigStores` | sla_calculator/src/lib.rs:860-926 | An accepted update stores its tier, keeps every other and adds no other key; a refused one changes nothing; and when it is which |
| `ContractEffects.TierIsLastSet` | sla_calculator/src/lib.rs:860-1024 | Over any run each stored tier is the one last set, imported, reset or initialized |
| `ContractEffects.SetConfigCharges` | sla_calculator/src/lib.rs:860-926 | A breach after an accepted update is charged at the new rate over the new threshold |
| `ContractEffects.ViewIsExact` | sla_calculator/src/lib.rs:1200-1244 | The view answers anyone, paused or not, with every field of the result of the stored tier at the capped duration |
| `ContractEffects.CapCapsView` | sla_calculator/src/lib.rs:2407-2421 | A new duration cap takes effect at once: longer outages are answered as those of the cap, shorter ones as before |
| `ContractEffects.PauseStopsCalculation` | sla_calculator/src/lib.rs:811-841 | A paused contract calculates for nobody; pausing and resuming leaves it as it was |
| `ContractEffects.SeverityComesFirst` | sla_calculator/src/lib.rs:1781-1796 | Any other severity is refused before pause and caller are looked at |
| `ContractEffects.RepeatedIdExactly` | sla_calculator/src/lib.rs:1497-1513 | A repeated id is refused if and only if capped duration or threshold differ from the stored entry, which is otherwise the answer |
| `ContractEffects.InitializedIsUsable` | sla_calculator/src/lib.rs:406-437 | Right after initialization the operator can record an outage of any severity, which is then the whole history, and nobody else can |
| `ContractEffects.FirstRules` | sla_calculator/src/lib.rs:1718-1772 | The documented rules right after initialization: thresholds, what a minute more costs, what a minute earns, duration cap and history size |
| `ContractRuns.StatesAlongAreARun` | sla_calculator/src/lib.rs:397-437 | Every sequence of calls has the sequence of states that the laws about the last write speak of |
| `ContractEffects.VersionComesFirst` | sla_calculator/src/lib.rs:1681-1691 | Which error every call but two gives on a contract of no or another version |
| `ContractEffects.AdminComesSecond` | sla_calculator/src/lib.rs:1693-1703 | Which error every admin call gives without an admin and to anyone else, and which one the admin can still cause |
| `ContractEffects.RefusedChangesNothing` | sla_calculator/src/lib.rs:406-1024 | A refused call changes nothing but an expired proposal that an acceptance drops |
| `ContractEffects.AdminAfter` | sla_calculator/src/lib.rs:632-666 | The stored admin after any call |
| `ContractEffects.OperatorAfter` | sla_calculator/src/lib.rs:547-609 | The stored operator after any call |
| `ContractEffects.PendingAdminAfter` | sla_calculator/src/lib.rs:617-697 | The pending admin proposal after any call |
| `ContractEffects.PendingOperatorAfter` | sla_calculator/src/lib.rs:700-789 | The pending operator proposal after any call |
| `ContractEffects.MigrationAfter` | sla_calculator/src/lib.rs:2489-2556 | Migration key and version after any call |
| `ContractEffects.PauseAfter` | sla_calculator/src/lib.rs:811-841 | The pause flag after any call |
| `ContractEffects.DurationCapAfter` | sla_calculator/src/lib.rs:2407-2421 | The duration cap after any call |
| `ContractRuns.LimitAfter` | sla_calculator/src/lib.rs:2384-2392 | The retention limit after any call |
| `ContractEffects.ProposedCanAccept` | sla_calculator/src/lib.rs:617-666 | A proposal can be accepted by its target, and only by it, up to 604800 seconds later and only once; the new admin is in office at once |
| `ContractEffects.CancelledCannotBeAccepted` | sla_calculator/src/lib.rs:671-681 | A cancelled proposal is gone: nobody can accept it at any time |
| `ContractEffects.PendingIsWhoCanAccept` | sla_calculator/src/lib.rs:684-697 | The getter names exactly the address that could accept now |
| `ContractEffects.ProposedOperatorCanAccept` | sla_calculator/src/lib.rs:721-774 | The same of an operator proposal |
| `ContractEffects.CancelledOperatorCannotAccept` | sla_calculator/src/lib.rs:779-789 | The same of its cancellation |
| `ContractEffects.PendingOperatorIsWhoCanAccept` | sla_calculator/src/lib.rs:700-713 | The same of its getter |
| `ContractEffects.OperatorIsWhoWasSet` | sla_calculator/src/lib.rs:547-609 | Exactly the address set can act as operator; after a revocation or renouncement nobody can, nor can a standing proposal be accepted |
| `ContractEffects.MigrationKeyWorksExactly` | sla_calculator/src/lib.rs:2489-2556 | A migration key works for its holder exactly after fourteen days, and only once |
| `ContractRuns.PendingProposalIsGenuine` | sla_calculator/src/lib.rs:617-681 | In every reachable state a pending proposal was made by the admin still in office and nothing has touched it since |
| `ContractRuns.AdminReplacementWasProposed` | sla_calculator/src/lib.rs:632-666 | Every replacement of one admin by another is an acceptance by the address that admin last proposed, at most 604800 seconds old; in between that admin neither proposed again nor cancelled nor renounced |
| `OperatorRuns.PendingOperatorWasProposed` | sla_calculator/src/lib.rs:721-736 | In every reachable state a pending operator proposal was made by whoever was admin at some earlier point and has stood since, with no cancellation, revocation or renouncement in between |
| `OperatorRuns.PendingOperatorIsSittingAdminsExactly` | sla_calculator/src/lib.rs:721-789 | It is the sitting admin's own if and only if no call moved that office since, or the last that did put the proposer back |
| `OperatorRuns.AcceptedOperatorWasProposed` | sla_calculator/src/lib.rs:740-774 | Every acceptance that changes the operator is of a standing proposal at most 604800 seconds old, by the sitting admin exactly under that condition |
| `OperatorRuns.AdminByLastMove` | sla_calculator/src/lib.rs:632-666 | Who is admin at a point of a run, by the last call that moved the office |
| `OperatorRuns.OperatorChangesInVacancy` | sla_calculator/src/lib.rs:740-774 | A run in which the operator changes while no admin is stored |
| `OperatorRuns.OperatorForcedOnNewAdmin` | sla_calculator/src/lib.rs:740-774 | A run in which a proposal of a former admin replaces the operator chosen by the new one |
| `ContractRuns.RenounceReopensInitialize` | sla_calculator/src/lib.rs:798-806 | After a renouncement initialize succeeds for anyone and starts over with an empty history |
| `ContractRuns.OnlyInitializeEndsVacancy` | sla_calculator/src/lib.rs:406-437 | While the office is vacant only initialize fills it; until then configuration, limits and pause flag stay as they are, the operator changes exactly by the acceptance of a ripe proposal or by renouncing, and the version exactly with a ripe migration key |
| `MigrationRuns.VersionChangesExactly` | sla_calculator/src/lib.rs:2514-2556 | The stored version changes if and only if a ripe migration key is used, or a new initialize finds another version |
| `MigrationRuns.LockedChangesExactly` | sla_calculator/src/lib.rs:451-504 | After the migration a contract changes if and only if a new initialize finds the office vacant; migrate refuses the admin |
| `MigrationRuns.LockedUntilRestart` | sla_calculator/src/lib.rs:2514-2556 | Over any run it stands still until then |
| `MigrationRuns.LockedForeverUnderAdmin` | sla_calculator/src/lib.rs:2514-2556 | With an admin in office it stands still forever, whatever anyone calls |
| `MigrationRuns.ReachableVersions` | sla_calculator/src/lib.rs:1681-1691 | In every reachable state storage is untouched, of the current version, or locked |
| `MigrationRuns.MigrationLocks` | sla_calculator/src/lib.rs:2489-2556 | A three-call run that locks the contract with its admin in office |
| `Contract.SlaContract.Initialize` | sla_calculator/src/lib.rs:406-437 | Fails with an admin in office and changes nothing; otherwise sets every field as specified |
| `Contract.SlaContract.SetOperator` | sla_calculator/src/lib.rs:547-569 | Admin only; sets the operator and nothing else |
| `Contract.SlaContract.RevokeOperator` | sla_calculator/src/lib.rs:578-589 | Admin only; removes the operator and any pending operator proposal |
| `Contract.SlaContract.RenounceOperator` | sla_calculator/src/lib.rs:598-609 | Operator only; removes both as well |
| `Contract.SlaContract.ProposeOperator` | sla_calculator/src/lib.rs:721-736 | Admin only; records target and time |
| `Contract.SlaContract.AcceptOperator` | sla_calculator/src/lib.rs:740-774 | Accepts only from the target within the validity period, whoever is admin, and drops an expired proposal |
| `Contract.SlaContract.CancelOperatorProposal` | sla_calculator/src/lib.rs:779-789 | Admin only; drops the proposal if there is one |
| `Contract.SlaContract.GetPendingOperator` | sla_calculator/src/lib.rs:700-713 | Answers the target, dropping an expired proposal on the way |
| `Contract.SlaContract.Migrate` | sla_calculator/src/lib.rs:451-504 | Admin only; stamps a missing version and refuses a newer one |
| `Contract.SlaContract.SetMigrationKey` | sla_calculator/src/lib.rs:2489-2509 | Admin only; records the key and the time |
| `Contract.SlaContract.ExecuteMigration` | sla_calculator/src/lib.rs:2514-2556 | Key holder only, after the timelock; raises the version and drops the key |
| `Contract.SlaContract.ProposeAdmin` | sla_calculator/src/lib.rs:617-628 | Admin only; records target and time |
| `Contract.SlaContract.AcceptAdmin` | sla_calculator/src/lib.rs:632-666 | Accepts only from the target within the validity period, and drops an expired proposal |
| `Contract.SlaContract.CancelAdminProposal` | sla_calculator/src/lib.rs:671-681 | Admin only; drops the proposal if there is one |
| `Contract.SlaContract.GetPendingAdmin` | sla_calculator/src/lib.rs:684-697 | Answers the target, dropping an expired proposal on the way |
| `Contract.SlaContract.RenounceAdmin` | sla_calculator/src/lib.rs:798-806 | Removes the admin and any pending proposal |
| `Contract.SlaContract.SetPaused` | sla_calculator/src/lib.rs:811-841 | Admin only; sets the pause flag either way |
| `Contract.SlaContract.SetConfig` | sla_calculator/src/lib.rs:860-926 | Stores a tier exactly when validation accepts it, and returns the validation error otherwise |
| `Contract.SlaContract.ImportConfigMap` | sla_calculator/src/lib.rs:959-976 | Replaces the configuration after a loop over the keys |
| `Contract.SlaContract.ResetConfig` | sla_calculator/src/lib.rs:1016-1024 | Restores the defaults |
| `Contract.SlaContract.SetRetentionLimit` | sla_calculator/src/lib.rs:2384-2392 | Accepts a limit from 50 to 5000 only |
| `Contract.SlaContract.SetMaxOutageDuration` | sla_calculator/src/lib.rs:2407-2421 | Accepts a positive cap only |
| `Contract.SlaContract.FindExisting` | sla_calculator/src/lib.rs:1497-1503 | The forward scan computes the last match |
| `Contract.SlaContract.CopyFrom` | sla_calculator/src/lib.rs:2216-2221 | The rebuilding loop copies exactly the tail from the given index |
| `Contract.SlaContract.IncrementStats` | sla_calculator/src/lib.rs:2046-2068 | Saturating update of the counters and the one sum the outcome concerns |
| `Contract.SlaContract.CalculateSla` | sla_calculator/src/lib.rs:1440-1550 | Guards in their order, cap, duplicate policy, append with retention and statistics: the whole new state and result are as specified |
| `Contract.SlaContract.PruneHistory` | sla_calculator/src/lib.rs:2203-2231 | Keeps the newest entries |
| `Contract.SlaContract.PruneHistoryByAge` | sla_calculator/src/lib.rs:2237-2275 | The filtering loop keeps the entries at or after the cutoff, in order |
| `Contract.SlaContract.PruneHistoryQueue` | sla_calculator/src/lib.rs:2565-2600 | Prunes to the retention limit and returns the number removed |
| `Contract.SlaContract.CountWindow` | sla_calculator/src/lib.rs:1307-1318 | The counting loop computes the number of entries and of violations in the window, with violations at most entries |
| `Contract.SlaContract.MonthlyCompliance` | sla_calculator/src/lib.rs:1248-1327 | The rate of the requested month: an error for a bad month, at most 10000, and 10000 exactly when the month has no violation |
| `Contract.RateIsFullExactlyWithoutViolation` | sla_calculator/src/lib.rs:1320-1326 | The same of the rate as a function of any history and window, rounding down included |
| `Contract.RateIsRoundedShare` | sla_calculator/src/lib.rs:1301-1326 | The rate is the share of entries without violation in ten-thousandths, rounded down, and full for an empty month |
| `Contract.CountsArePlaces` | sla_calculator/src/lib.rs:1307-1318 | The two counters are the sizes of the sets of places they count |
| `Contract.ViolationCountBounds` | sla_calculator/src/lib.rs:1307-1318 | Violations never outnumber entries and are none exactly when no violated entry lies in the window |
| `Batch.CalculatorsAgreeExactly` | sla_calculator/src/batch.rs:182-255 | On every stored tier, imported ones included, a fresh calculate_sla and the view agree, and the second copy of the calculator agrees with them if and only if the MTTR is from 1 to the duration cap and the view does not refuse the penalty |
| `Batch.FreeBreachDisagrees` | sla_calculator/src/batch.rs:210-224 | A tier with penalty 0 on which the second copy reports a violation and the view refuses |
| `Batch.SimulationAgreesExactly` | sla_calculator/src/lib.rs:1562-1597 | On every stored tier the simulation and the view both answer and agree on breach, penalty and tier if and only if the threshold is positive and a breach costs something; the simulation traps exactly on a zero threshold |
| `Batch.SimulationAgrees` | sla_calculator/src/lib.rs:1189-1198 | So on a validated tier they agree for every MTTR |
| `Batch.ZeroThresholdTrapsSimulation` | sla_calculator/src/lib.rs:1562-1597 | An import after which the simulation traps where the view answers |
| `Batch.NoFaultExactly` | sla_calculator/src/batch.rs:357-375 | The validation loop finds no fault exactly when all severities are canonical and all ids distinct |
| `Batch.ValidateBatch` | sla_calculator/src/batch.rs:345-378 | Accepts exactly the batches of 1 to 50 requests without fault and reports the first fault otherwise |
| `Batch.ProcessAll` | sla_calculator/src/batch.rs:110-165 | The processing loop reports every item in order, succeeded + failed = total, and the two totals as specified |
| `Batch.BatchCalculate` | sla_calculator/src/batch.rs:76-179 | Succeeds exactly for an acceptable batch from the operator of an unpaused, configured contract; otherwise returns the first fault of the batch, or the first guard that fails |
| `Batch.SummaryIsExact` | sla_calculator/src/batch.rs:110-165 | Under validated tiers the saturating totals of a batch are the exact sums of the item amounts |
| `Batch.TotalsWithinBounds` | sla_calculator/src/batch.rs:110-165 | Those sums stay far inside i128, with the right sign |
| `Batch.SummaryFollowsItems` | sla_calculator/src/batch.rs:110-165 | The summary can be recomputed from the items: successes, failures and, under validated tiers, both totals; every item is well formed |
| `Batch.ItemSays` | sla_calculator/src/batch.rs:118-157 | In an accepted batch an item fails exactly for a missing tier or an MTTR of 0 and says which; otherwise it holds the calculated result |
| `Batch.DowntimeMapIsScan` | sla_calculator/src/batch.rs:294-314 | The one-pass downtime map answers any site as a scan for that site would, saturation included |
| `Batch.ComplianceMapIsScan` | sla_calculator/src/batch.rs:294-314 | The compliance map has a site exactly when some entry does, and calls it compliant exactly when all its entries are met |
| `Batch.LookupAnswersLikeScan` | sla_calculator/src/batch.rs:316-334 | So each assembled answer is the answer of a per-site scan |
| `Batch.AggregateOnce` | sla_calculator/src/batch.rs:294-314 | One pass over the history builds both maps |
| `Batch.GetBatchDowntime` | sla_calculator/src/batch.rs:277-337 | For up to 50 sites every requested site is answered, in order, as a scan would |
| `DisputeRuns.StepEffect` | sla_calculator/src/dispute.rs:266-852 | Every call opens, settles, amends or closes the one dispute it names, or changes nothing; it is the case distinction the run theorems rest on |
| `DisputeRuns.QuorumIsSecondVote` | sla_calculator/src/dispute.rs:555-604 | A vote reaches the quorum exactly when it is a new voter's and the second on its side; that side wins, and nothing is slashed |
| `DisputeRuns.ThirdVoteSettles` | sla_calculator/src/dispute.rs:486-544 | An active dispute has at most two voters, and a third distinct one always settles it |
| `DisputeEffects.VoteIsStored` | sla_calculator/src/dispute.rs:486-544 | The vote of a new admitted arbitrator is stored after the earlier ones and settles the dispute, for its side, if and only if an earlier vote agrees |
| `DisputeEffects.OtherVotesChangeNothing` | sla_calculator/src/dispute.rs:486-544 | Any other vote changes nothing, and with which error |
| `DisputeEffects.TwoVotesSettle` | sla_calculator/src/dispute.rs:486-604 | Over any run, two admitted first votes for one side with no other call on that dispute in between leave it resolved for that side |
| `DisputeEffects.TallyExactly` | sla_calculator/src/dispute.rs:555-604 | The tally in terms of the votes themselves: two for the outage, else two against; a slash for exactly three, all frivolous and against |
| `DisputeRuns.FinishIsVoted` | sla_calculator/src/dispute.rs:632-716 | Whichever of the three paths settles a dispute, it was active, its bond is the stored one, at most three voters share, and nothing is slashed |
| `DisputeRuns.EffectKeepsVotes` | sla_calculator/src/dispute.rs:486-544 | Every call keeps one vote per distinct voter and, while active, at most one vote on each side |
| `DisputeRuns.EffectKeepsActiveBound` | sla_calculator/src/dispute.rs:266-318 | Every call keeps the number of active disputes at 50 or below |
| `DisputeRuns.RunKeepsActiveBound` | sla_calculator/src/dispute.rs:935-943 | So does every run |
| `DisputeRuns.ReachableDisputes` | sla_calculator/src/dispute.rs:586-604 | In every reachable state: at most 50 active, votes two-sided as above, no settlement ever slashed, pool empty |
| `DisputeRuns.SettledAtMostOnce` | sla_calculator/src/dispute.rs:733-815 | Over any run no opening of a dispute is settled twice, however often its id is reused |
| `DisputeRuns.PaidExactlyWhenNoted` | sla_calculator/src/dispute.rs:733-852 | In every reachable state the present filing of a dispute has been settled exactly when a resolution is noted on it: never while active, always when resolved, and when dismissed exactly if the note is there |
| `DisputeRuns.NotedExactlyOnce` | sla_calculator/src/dispute.rs:733-815 | Such a filing has exactly one settlement, and the payout stored under its id is that settlement's |
| `DisputeEffects.SettlementIsRecorded` | sla_calculator/src/dispute.rs:733-815 | What a settlement stores: the same dispute, resolved, with text, resolver and time, its payout, and nothing under other ids |
| `DisputeEffects.DismissalPaysBack` | sla_calculator/src/dispute.rs:748-770 | A settlement that is not upheld pays the whole bond back and credits nobody |
| `DisputeEffects.NotUpheldPaysBack` | sla_calculator/src/dispute.rs:748-770 | So it is of every such settlement of a run |
| `DisputeEffects.NoVoterNoFee` | sla_calculator/src/dispute.rs:753-762 | Without votes there is no fee |
| `DisputeEffects.UpheldSplitsBond` | sla_calculator/src/dispute.rs:748-787 | An ordinary upheld bond is split into the customer's part and a 5% fee, and each distinct voter's balance rises by an equal share of it |
| `DisputeEffects.SlashTakesAll` | sla_calculator/src/dispute.rs:750-752 | A slashed bond would go to the pool whole |
| `DisputeRuns.PayoutIsCurrentExactly` | sla_calculator/src/dispute.rs:800-805 | A payout stored under the id of a dispute belongs to its present filing if and only if a resolution is noted on it |
| `DisputeRuns.PayoutOutlivesFiling` | sla_calculator/src/dispute.rs:289-310 | A run that leaves an open dispute with the payout of an earlier filing |
| `DisputeRuns.BalancedExactlyWhenFeeSound` | sla_calculator/src/dispute.rs:748-770 | A settlement pays out its bond, up to less than one unit per voter, if and only if the wrapped product of bond and fee rate is sound |
| `DisputeRuns.SoundByProductAlone` | sla_calculator/src/dispute.rs:753-763 | For a bond that is not negative, soundness is a lower bound on that product |
| `DisputeRuns.FeeIsFivePercentExactly` | sla_calculator/src/dispute.rs:753-757 | The fee is 5% of a non-negative bond, rounded down, if and only if the bond is at most a five-hundredth of the i128 range |
| `DisputeRuns.WrappedFeeIsLost` | sla_calculator/src/dispute.rs:753-763 | A larger bond that balances although its two voters lose their fee |
| `DisputeRuns.OrdinaryBondIsSound` | sla_calculator/src/dispute.rs:748-770 | Every non-negative bond up to that bound is sound |
| `DisputeRuns.LargeBondCreatesMoney` | sla_calculator/src/dispute.rs:748-770 | Just above, a bond that pays its customer more than the bond |
| `DisputeRuns.CreditAllWraps` | sla_calculator/src/dispute.rs:780-787 | Crediting voters one by one in i128 is crediting them over the integers and wrapping at the end |
| `DisputeRuns.CreditsSum` | sla_calculator/src/dispute.rs:780-787 | All balances together are what the settlements credited |
| `DisputeRuns.EveryBondIsSomewhere` | sla_calculator/src/dispute.rs:266-852 | Over any run, posted bonds = settled + active + stranded, the stored balances are the credits of the log wrapped, and settled = customers + credits + what each settlement keeps back |
| `DisputeRuns.NothingStrandedExactly` | sla_calculator/src/dispute.rs:289-310 | In a run with non-negative bonds nothing is stranded if and only if no call filed over, or dismissed, an active dispute with a positive bond |
| `DisputeRuns.DismissalStrandsBond` | sla_calculator/src/dispute.rs:831-852 | A two-call run that strands a bond of 100 by dismissal, with no payout |
| `DisputeRuns.OverwritingStrandsBond` | sla_calculator/src/dispute.rs:289-310 | A two-call run that strands one by a second filing under the same id |
| `DisputeRuns.SettledBondsAreConserved` | sla_calculator/src/dispute.rs:733-815 | The stored balances and pool close the books exactly when no arbitrator's credit exceeds i128, and every settlement's dust is below one unit per voter exactly when all fees are sound |
| `DisputeRuns.BooksCloseWithinDust` | sla_calculator/src/dispute.rs:733-815 | With sound fees and no overflowing credit, all that a run settled is paid out but at most two units a settlement |
| `DisputeRuns.RunKeepsMoney` | sla_calculator/src/dispute.rs:733-815 | The invariant behind both |
| `DisputeRuns.RunKeepsRecords` | sla_calculator/src/dispute.rs:289-458 | In every reachable state a deadline is the filing time plus the window, the current evidence hash is the last one added, the level follows the status, and a panel has three members or none |
| `DisputeEffects.FilingIsRecorded` | sla_calculator/src/dispute.rs:266-318 | What a filing stores, and that it succeeds exactly below 50 active disputes |
| `DisputeEffects.FilingIsLast` | sla_calculator/src/dispute.rs:266-318 | In every reachable state a dispute carries outage, filer, time and bond of the last filing under its id |
| `DisputeEffects.StatesAlongAreARun` | sla_calculator/src/dispute.rs:266-852 | Every sequence of calls has the states this speaks of |
| `DisputeEffects.EvidenceExactly` | sla_calculator/src/dispute.rs:389-424 | Evidence is taken exactly from the filer of an active dispute and is then the current and last one |
| `DisputeEffects.PanelExactly` | sla_calculator/src/dispute.rs:432-458 | A panel of three named by the admin is the panel: its members may vote and nobody else |
| `DisputeEffects.RulingsExactly` | sla_calculator/src/dispute.rs:632-852 | When a ruling, an expiry and a dismissal succeed, and what each stores |
| `DisputeEffects.OnlyTheAdminRules` | sla_calculator/src/dispute.rs:967-977 | What the admin's calls answer anyone else |
| `DisputeRuns.EscalatedOnceOnly` | sla_calculator/src/dispute.rs:334-371 | In a reachable state an escalation succeeds exactly for the admin on an open dispute and takes it to the second level; a second one always fails, and the third level is never reached |
| `DisputeRuns.ExpirySettlesExactly` | sla_calculator/src/dispute.rs:679-716 | In every reachable state expiry settles a dispute exactly when it is active and past its filing time plus fourteen days in u64, in favour of its filer |
| `DisputeRuns.ExpiryNeedsFullWindowExactly` | sla_calculator/src/dispute.rs:679-716 | Expiry always waits for more than fourteen days if and only if filing time plus window fits u64 |
| `DisputeRuns.LateFilingExpiresAtOnce` | sla_calculator/src/dispute.rs:306-306 | A filing at the end of the u64 clock that can be settled by expiry at once |
| `Disputes.DisputeBook.CountActive` | sla_calculator/src/dispute.rs:935-943 | The counting loop counts the active disputes |
| `Disputes.DisputeBook.Open` | sla_calculator/src/dispute.rs:266-318 | Files or overwrites under the cap; the evidence hash leaves no trace |
| `Disputes.DisputeBook.Escalate` | sla_calculator/src/dispute.rs:334-371 | Admin only, one level at a time, not beyond the third |
| `Disputes.DisputeBook.AddEvidence` | sla_calculator/src/dispute.rs:389-424 | Filer only, while active |
| `Disputes.DisputeBook.AssignPanel` | sla_calculator/src/dispute.rs:432-458 | Admin only, exactly three arbitrators, while active |
| `Disputes.DisputeBook.TallyQuorum` | sla_calculator/src/dispute.rs:555-604 | The tally loop computes the winning side and the slash flag as specified |
| `Disputes.DisputeBook.CastVote` | sla_calculator/src/dispute.rs:486-544 | Panel check, one vote per voter, and settlement on quorum |
| `Disputes.DisputeBook.Resolve` | sla_calculator/src/dispute.rs:632-662 | Admin ruling on an active dispute |
| `Disputes.DisputeBook.AutoResolve` | sla_calculator/src/dispute.rs:679-716 | Settlement after expiry, for the filer |
| `Disputes.DisputeBook.CreditVoters` | sla_calculator/src/dispute.rs:780-787 | The crediting loop adds the share to each voter in turn |
| `Disputes.DisputeBook.SettleDispute` | sla_calculator/src/dispute.rs:733-815 | Fee, shares, balances, pool, payout record and status, all as specified |
| `Disputes.DisputeBook.Dismiss` | sla_calculator/src/dispute.rs:831-852 | Marks any dispute dismissed, whatever its status, and pays nobody |
| `Forest.EdgeKeepsAcyclicExactly` | sla_calculator/src/outage_correlation_tag.rs:69-97 | Setting a parent, new or replacing another, keeps a parent map acyclic if and only if the walk from the parent does not meet the child |
| `Forest.DropKeepsAcyclic` | sla_calculator/src/outage_correlation_tag.rs:99-112 | Removing a parent keeps it acyclic |
| `Forest.UpShrinks` | sla_calculator/src/outage_correlation_tag.rs:69-79 | The measure that makes the unbounded walk end: fewer ancestors at every step |
| `Forest.RootIsTopAncestor` | sla_calculator/src/outage_correlation_tag.rs:38-53 | In an acyclic map the root is an ancestor without parent |
| `Forest.ClimbFindsRoot` | sla_calculator/src/outage_correlation_tag.rs:38-53 | A walk capped at k steps ends at the root if and only if there are at most k ancestors above |
| `Forest.AddChildListsIt` | sla_calculator/src/outage_correlation_tag.rs:99-109 | Adding to a child list adds that child to that parent only, and no duplicates |
| `Forest.AddChildMatches` | sla_calculator/src/outage_correlation_tag.rs:99-109 | Each child list stays the list of children ever placed under that parent |
| `Forest.NamedExactlyOnce` | sla_calculator/src/outage_correlation_tag.rs:99-109 | That list names each such child once |
| `OutageTags.AcceptedExactlyWhenAcyclic` | sla_calculator/src/outage_correlation_tag.rs:85-112 | A tag is accepted if and only if the parent map with it is acyclic; a rejected tag changes nothing |
| `OutageTags.TaggingKeepsForest` | sla_calculator/src/outage_correlation_tag.rs:85-112 | Tagging keeps the map acyclic, every child in its parent's list, and the lists free of duplicates and of unknown outages |
| `OutageTags.TagIsStored` | sla_calculator/src/outage_correlation_tag.rs:85-112 | An accepted tag is stored as given and touches no other; the root answered is the true one exactly for at most 64 ancestors; a refused tag says why |
| `OutageTags.TagIsLastAccepted` | sla_calculator/src/outage_correlation_tag.rs:85-112 | Over any run the stored tag of an outage is the last one accepted for it |
| `OutageTags.RunHasStates` | sla_calculator/src/outage_correlation_tag.rs:85-112 | Every sequence of taggings has the states this speaks of |
| `OutageTags.RunKeepsForest` | sla_calculator/src/outage_correlation_tag.rs:85-112 | So does every run of taggings, re-parenting included |
| `OutageTags.ChildrenAreCurrentExactly` | sla_calculator/src/outage_correlation_tag.rs:99-109 | In every reachable state a child list names exactly the present children if and only if every tag ever accepted under that parent is still in force |
| `OutageTags.StaleChildAfterReparenting` | sla_calculator/src/outage_correlation_tag.rs:99-109 | A run after which an outage is listed under a parent it no longer has |
| `OutageTags.GroupsHoldMembers` | sla_calculator/src/outage_correlation_tag.rs:124-135 | A group holds exactly the tagged outages that resolve to its root, in the order of the tags |
| `OutageTags.MembersExactly` | sla_calculator/src/outage_correlation_tag.rs:124-135 | Membership in terms of the capped walk, without duplicates |
| `OutageTags.GroupsPartition` | sla_calculator/src/outage_correlation_tag.rs:124-135 | Every tagged outage is in one group and no other, once, and that group is its true root's exactly when it has at most 64 ancestors |
| `OutageTags.GroupTotalIsMemberDowntime` | sla_calculator/src/outage_correlation_tag.rs:137-148 | The total of a root is the downtime of its members |
| `OutageTags.GroupTotalsSum` | sla_calculator/src/outage_correlation_tag.rs:137-148 | The totals of all groups sum to the downtime of all tags |
| `OutageTags.AggregationConserves` | sla_calculator/src/outage_correlation_tag.rs:137-148 | The saturating totals do so exactly when no group overflows u64, in particular whenever the grand total fits |
| `OutageTags.CorrelationIndex.AncestryContains` | sla_calculator/src/outage_correlation_tag.rs:69-79 | The unbounded walk ends and decides reachability |
| `OutageTags.CorrelationIndex.ResolveRoot` | sla_calculator/src/outage_correlation_tag.rs:38-53 | The capped loop computes the capped walk, with no assumption on the tags |
| `OutageTags.CorrelationIndex.TagOutage` | sla_calculator/src/outage_correlation_tag.rs:85-112 | The new tags, child lists and result as specified |
| `OutageTags.CorrelationIndex.GroupByRoot` | sla_calculator/src/outage_correlation_tag.rs:124-135 | The grouping loop builds the specified groups |
| `OutageTags.CorrelationIndex.AggregateRootDowntime` | sla_calculator/src/outage_correlation_tag.rs:137-148 | The accumulating loop returns the clamped total of the root |
| `Dependencies.RegisteredExactlyWhenAcyclic` | sla_calculator/src/dependency_propagation.rs:63-92 | A dependency is accepted if and only if the parent map with it is acyclic |
| `Dependencies.RegisteringKeepsForest` | sla_calculator/src/dependency_propagation.rs:63-92 | Registering keeps forest and child lists as above |
| `Dependencies.RegistrationIsStored` | sla_calculator/src/dependency_propagation.rs:63-92 | An accepted dependency is stored as given and touches no other and no status; a refused one says why |
| `Dependencies.ParentIsLastRegistered` | sla_calculator/src/dependency_propagation.rs:63-92 | Over any run the parent of a site is the one last registered for it |
| `Dependencies.StatusIsLastReported` | sla_calculator/src/dependency_propagation.rs:110-114 | Over any run the manual status of a site is the one last reported, or operational |
| `Dependencies.StatusReads` | sla_calculator/src/dependency_propagation.rs:104-135 | How the status of a site reads, and that a report moves only its own site |
| `Dependencies.CountsAreReported` | sla_calculator/src/dependency_propagation.rs:137-158 | The counts returned are the numbers of sites degraded and of flags lost |
| `Dependencies.RunKeepsForest` | sla_calculator/src/dependency_propagation.rs:47-92 | So does every run of all four operations, and each child list is the children ever registered under the parent |
| `Dependencies.ChildrenAreCurrentExactly` | sla_calculator/src/dependency_propagation.rs:63-92 | In every reachable state a child list names exactly the present children if and only if every dependency ever registered under that parent is still in force |
| `Dependencies.RaisedExactly` | sla_calculator/src/dependency_propagation.rs:137-147 | Propagation flags exactly the listed children that are not manually down, besides those flagged before |
| `Dependencies.LoweredExactly` | sla_calculator/src/dependency_propagation.rs:149-158 | Clearing lowers exactly the listed children's flags |
| `Dependencies.PropagationDegradesChildren` | sla_calculator/src/dependency_propagation.rs:126-147 | The status of every site after a propagation: degraded for the affected children, otherwise unchanged, and a manual outage is never overwritten |
| `Dependencies.ClearUndoesPropagationExactly` | sla_calculator/src/dependency_propagation.rs:137-158 | Clearing undoes a propagation if and only if no child was flagged before it |
| `Dependencies.ClearTakesEarlierFlag` | sla_calculator/src/dependency_propagation.rs:149-158 | A run after which a propagation and its clearing take away a flag raised earlier |
| `Dependencies.FormerChildrenAreDegradedToo` | sla_calculator/src/dependency_propagation.rs:63-147 | After any run an outage degrades every site ever registered under the parent, moved away since or not |
| `Dependencies.OnlyChildrenAffectedExactly` | sla_calculator/src/dependency_propagation.rs:63-147 | An outage keeps to the present children if and only if every former one is reported down or degraded already |
| `Dependencies.FormerChildIsDegraded` | sla_calculator/src/dependency_propagation.rs:63-147 | A run after which an outage degrades a site that has moved away |
| `Dependencies.DependencyGraph.AncestryContains` | sla_calculator/src/dependency_propagation.rs:47-57 | The unbounded walk ends and decides reachability |
| `Dependencies.DependencyGraph.Register` | sla_calculator/src/dependency_propagation.rs:63-92 | The new maps and result as specified |
| `Dependencies.DependencyGraph.ReportStatus` | sla_calculator/src/dependency_propagation.rs:110-114 | Sets the manual status of one site |
| `Dependencies.DependencyGraph.PropagateOutage` | sla_calculator/src/dependency_propagation.rs:137-147 | Raises the flags in a loop and counts them |
| `Dependencies.DependencyGraph.ClearOutage` | sla_calculator/src/dependency_propagation.rs:149-158 | Lowers the flags in a loop and counts the raised ones |
| `CollateralState.CapacityBelowCoveredShare` | sla_calculator/src/collateral_lock.rs:68-74 | The capacity never exceeds the covered share of the lock, and equals it rounded down exactly when the product fits i128 |
| `CollateralState.GeometricStep` | sla_calculator/src/collateral_lock.rs:132-160 | A payout of at most share c carries 10000^k * residual >= (10000 - c)^k * original from k to k + 1 |
| `CollateralState.PayoutIsSound` | sla_calculator/src/collateral_lock.rs:116-160 | A successful payout stays within the covered share, is deducted once, and releases the lock exactly when nothing remains |
| `CollateralState.LockExactly` | sla_calculator/src/collateral_lock.rs:82-114 | When a lock is taken, with which error otherwise, and what is stored |
| `CollateralState.PayoutExactly` | sla_calculator/src/collateral_lock.rs:116-160 | When a payout succeeds, with which error otherwise, and what changes |
| `CollateralState.ReleaseExactly` | sla_calculator/src/collateral_lock.rs:162-183 | When a release succeeds, what it returns and what it marks |
| `CollateralState.CoverageIsLastLocked` | sla_calculator/src/collateral_lock.rs:82-114 | Over any run a provider's coverage and lock time are those of its last accepted lock |
| `CollateralState.StepKeepsBooks` | sla_calculator/src/collateral_lock.rs:82-183 | Every lock, payout and release keeps the books |
| `CollateralState.CollateralIsConserved` | sla_calculator/src/collateral_lock.rs:201-210 | Over any run the sum of locked amounts is locks minus payouts minus releases |
| `CollateralState.TotalIsConservedExactly` | sla_calculator/src/collateral_lock.rs:201-210 | The wrapped total that the code returns obeys the same law if and only if what the law promises fits an i128 |
| `CollateralState.TwoLocksWrapTheTotal` | sla_calculator/src/collateral_lock.rs:201-210 | A two-call run whose total wraps to the least i128 |
| `CollateralState.ResidualIsBounded` | sla_calculator/src/collateral_lock.rs:132-160 | Over any run a lock has paid out what is missing from it, and obeys the geometric bound for its number of payouts |
| `CollateralState.PayoutsNeverDrain` | sla_calculator/src/collateral_lock.rs:132-160 | In every reachable state a payout from a lock with coverage below 100% leaves it locked with a positive amount |
| `CollateralState.DrainableExactly` | sla_calculator/src/collateral_lock.rs:68-160 | In every reachable state one payout can take a whole lock if and only if its capacity reaches its amount; while the product fits i128, if and only if its coverage is full |
| `CollateralState.FullCoverageCanDrain` | sla_calculator/src/collateral_lock.rs:132-160 | With full coverage one payout can drain and release a lock |
| `Collateral.CollateralBook.LockCollateral` | sla_calculator/src/collateral_lock.rs:82-114 | Rejects bad amounts, bad coverage and double locks; otherwise stores the record |
| `Collateral.CollateralBook.PayoutFromCollateral` | sla_calculator/src/collateral_lock.rs:132-160 | Verifies coverage, deducts, and releases a drained lock |
| `Collateral.CollateralBook.ReleaseCollateral` | sla_calculator/src/collateral_lock.rs:162-183 | Returns the remaining amount and marks the lock released |
| `Collateral.CollateralBook.LockedAmountsBySite` | sla_calculator/src/collateral_lock.rs:188-199 | The loop collects exactly the locked amounts, in any key order |
| `Collateral.CollateralBook.TotalLocked` | sla_calculator/src/collateral_lock.rs:201-210 | The loop returns the sum of those amounts, exact whenever it fits i128 |
| `EventQueries.ScanIsExact` | sla_calculator/src/event_index.rs:93-163 | A full scan returns strictly increasing positions, exactly those of the matching entries |
| `EventQueries.MatchingIsScan` | sla_calculator/src/event_filter.rs:53-116 | The filtered history is the entries at those positions, in order |
| `EventQueries.FilteredExactly` | sla_calculator/src/event_filter.rs:53-116 | Which entries a filter lets through: inclusive bounds, and an absent field asks for nothing |
| `EventQueries.EmptyFilterKeepsAll` | sla_calculator/src/event_filter.rs:53-116 | A filter without fields returns the history itself |
| `EventQueries.FiltersCompose` | sla_calculator/src/event_filter.rs:53-116 | Filtering by bounds and then by status and payment is filtering by all |
| `EventQueries.PagesJoin` | sla_calculator/src/event_filter.rs:53-116 | Two adjacent pages, of any sizes, concatenate to the page that spans them |
| `EventQueries.FirstPagesJoin` | sla_calculator/src/event_filter.rs:53-116 | The first k pages of equal size concatenate to one page |
| `EventQueries.PagesCover` | sla_calculator/src/event_filter.rs:53-116 | Enough pages concatenate to the whole filtered history |
| `EventQueries.MatchingKeepsOrder` | sla_calculator/src/event_filter.rs:53-116 | Filtering keeps the time order of the history |
| `EventQueries.FilterEvents` | sla_calculator/src/event_filter.rs:53-116 | The single loop with skip and take counters returns exactly the offset/limit slice of the filtered history |
| `EventQueries.CountFilteredEvents` | sla_calculator/src/event_filter.rs:121-166 | The counting loop returns the full length of the filtered history, saturating at u32 |
| `EventQueries.FreshIndexIsScanExactly` | sla_calculator/src/event_index.rs:50-163 | A freshly built index answers a query as a full scan if and only if no entry beyond its maximum size matches, so always when the history fits; its positions increase strictly |
| `EventQueries.TestReads` | sla_calculator/src/event_index.rs:93-163 | What each finder asks of an entry |
| `EventQueries.IndexAnswersLikeFilter` | sla_calculator/src/event_index.rs:50-163 | An index that fits and the event filter answer alike, entry by entry |
| `EventQueries.DroppingShiftsPositions` | sla_calculator/src/event_index.rs:50-163 | Dropping the oldest n entries shifts every position by n |
| `EventQueries.StaleIndexIsShifted` | sla_calculator/src/event_index.rs:84-163 | After the history lost its oldest n entries and gained others, a scan finds the kept index's answer shifted by n, then the matches the index does not know |
| `IndexRuns.KeptIndexAlongRun` | sla_calculator/src/event_index.rs:84-163 | The same between any two points of a run of the contract without a restart |
| `EventQueries.KeptIndexIsRightExactly` | sla_calculator/src/event_index.rs:84-163 | A kept index answers for a later history as a scan would if and only if, position by position, the entries it holds match as the later ones do |
| `EventQueries.PrunedHistoryIndexIsRightExactly` | sla_calculator/src/event_index.rs:84-163 | After mere pruning it does so if and only if nothing was pruned or nothing matches |
| `EventQueries.StaleIndexMisleads` | sla_calculator/src/event_index.rs:93-108 | Of any two outages, the older pruned: the kept index names the wrong position for the younger |
| `EventQueries.PrunedIndexAnswers` | sla_calculator/src/event_index.rs:197-215 | A pruned index answers with exactly the matching entries at or after the cutoff |
| `EventQueries.EventIndexStore.BuildEventIndex` | sla_calculator/src/event_index.rs:50-81 | The loop indexes the first entries up to the maximum and stores the result |
| `EventQueries.EventIndexStore.GetEventIndex` | sla_calculator/src/event_index.rs:84-90 | Returns the stored index, stale or not, and builds only when there is none |
| `EventQueries.EventIndexStore.FindEvents` | sla_calculator/src/event_index.rs:93-163 | Each finder returns the positions its predicate selects, in order |
| `EventQueries.EventIndexStore.InvalidateIndex` | sla_calculator/src/event_index.rs:179-181 | Forgets the stored index, so that the next query rebuilds it |
| `EventQueries.EventIndexStore.SetMaxIndexSize` | sla_calculator/src/event_index.rs:192-194 | Sets the size limit of later builds and leaves the stored index |
| `EventQueries.EventIndexStore.PruneIndexBefore` | sla_calculator/src/event_index.rs:197-215 | Keeps the entries at or after the cutoff and counts the others |
| `Base64.RoundTripExactly` | sdk/src/client.ts:40-54 | Decoding by section 4 of RFC 4648 recovers the input if and only if all character codes are below 256 |
| `Base64.DecodeEncode` | sdk/src/client.ts:40-54 | The same for any table whose two directions are inverse |
| `Base64.SextetsRestoreBytes` | sdk/src/client.ts:47-51 | The shifts and masks of the encoder are undone by those of a decoder |
| `Base64.EncodeIsInjective` | sdk/src/client.ts:40-54 | Different byte strings have different encodings |
| `Base64.WideCharactersCollide` | sdk/src/client.ts:40-54 | Above 255 two inputs share an encoding |
| `Base64.LengthAndPadding` | sdk/src/client.ts:48-51 | The output has 4*ceil(n/3) characters, and the padding character stands at the end only, as many as section 4 of RFC 4648 requires |
| `Base64.TableIsInverse` | sdk/src/client.ts:32-33 | Reading a character of the alphabet gives back the six bits it stands for |
| `Base64.TableIsAlphabet` | sdk/src/client.ts:32-33 | The table string is the alphabet of RFC 4648, character by character |
| `Base64.ToBase64` | sdk/src/client.ts:40-54 | The loop produces the specified encoding |
| `Normalize.NormalFormIsCanonical` | tools/normalize-snapshots.ts:11-25 | Two trees have the same normal form if and only if they differ only in property order and in properties the canonicaliser drops, at any depth |
| `Normalize.SameTreesNormalizeEqually` | tools/normalize-snapshots.ts:11-25 | One direction of it |
| `Normalize.EqualNormalFormsAreSame` | tools/normalize-snapshots.ts:11-25 | The other direction: nothing else is lost |
| `Normalize.NormalizeIsIdempotent` | tools/normalize-snapshots.ts:11-25 | Normalising twice is normalising once |
| `Normalize.OrderAndNoiseDoNotMatter` | tools/normalize-snapshots.ts:17-25 | Trees that differ only in property order and volatile keys normalise to the same tree |
| `Normalize.OnlyOrderAndNoiseAreLost` | tools/normalize-snapshots.ts:11-25 | Among trees without a `__proto__` property the converse holds too: equal normal forms exactly for trees that differ in nothing else |
| `Normalize.ProtoDifferenceIsLost` | tools/normalize-snapshots.ts:21-24 | Two trees that differ in a `__proto__` property and normalise alike |
| `Normalize.NormalIsWellFormed` | tools/normalize-snapshots.ts:17-25 | Normal forms have distinct keys at every depth |
| `Normalize.KeyOrderIsLexical` | tools/normalize-snapshots.ts:19-20 | Keys are sorted as in a dictionary, by the first code unit that differs |
| `Normalize.ExactlyTheseVanish` | tools/normalize-snapshots.ts:9-19 | Exactly the three volatile names and `__proto__` are missing from a normal form |
| `Normalize.NormalIsOrdered` | tools/normalize-snapshots.ts:17-25 | A normal form has array indices first, by value, then the other keys sorted, each with the normal form of its value |
| `Normalize.SortedIsUnique` | tools/normalize-snapshots.ts:18-20 | A set of properties with distinct keys has one sorted order, so any correct sort gives the same list |
| `Normalize.AssembleMembers` | tools/normalize-snapshots.ts:21-24 | Rebuilding an object loses and invents no property other than `__proto__` |
| `Normalize.AssembleDependsOnContent` | tools/normalize-snapshots.ts:18-24 | The rebuilt object depends on the set of properties only |

## Left out

- ContractRuns.HistoryIsSuffixOfLog: assumes that the ledger clock of the run does not go back, which the ledger guarantees; with a clock that goes back, pruning by age need not remove a prefix.
- ContractRuns.HistoryMovesOn: assumes such a clock too.
- IndexRuns.KeptIndexAlongRun: assumes such a clock too.
- ContractRuns.AdminReplacementWasProposed: assumes such a clock for the age of the proposal.
- OperatorRuns.AcceptedOperatorWasProposed: assumes such a clock for the age of the proposal.
- ContractRuns.StatsAreTotals: speaks of runs whose successful imports carry no negative rate: an imported negative rate can give an amount of the wrong sign, and the order of saturating additions then matters. ContractRuns.RunKeepsTally ties the statistics to the saturating fold of the log without that condition.
- OutageTags.CorrelationIndex.GroupByRoot: the host's key order is the argument `order`, any duplicate-free listing of the tagged outages.
- Authentication (`require_auth`), event publishing, storage lifetimes, XDR and SHA-256.
- The host's undoing of the writes of a call that returns an error. Only the expiry paths of accept_admin and accept_operator write before they fail, and the model keeps that write.
- The configuration update counter, initialisation time, pause reason, and the getters, paginated and hash views of the contract.
- `batch_calculate_view` and the counters inside the batch events.
- Reason texts of disputes, their read-only getters, and the appeal, withdrawal and forced-settlement helpers.
- The convenience wrappers of the event filter (`get_events_in_window` and its neighbours) and the index metadata getter.
- Multi-site discounts, checked division and the sub-minute precision helpers of `lib.rs`: closed formulas with nothing to relate them to.
- In the canonicaliser, file reading and writing and the parsing and printing of JSON; numbers and strings are opaque leaves.
- All other modules of the contract, the rest of the SDK client, and the scripts.
