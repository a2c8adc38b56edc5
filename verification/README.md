# A verified model of the finance dashboard's core

The program is a personal finance dashboard. Once a day it recommends how much cash to move between
checking and savings, from the bills and income the user has declared and the statements of the
credit cards. It decides which bank transaction satisfied which dated occurrence of a declared item,
categorizes transactions by the user's rules, keeps them in step with the bank, and shows the month
against a budget. This project models those five parts and proves what the rest of the program
relies on.

**The sweep.** `Calendar` is the proleptic Gregorian calendar as day numbers, with the clamped month
shift. `Schedule` and `Windows` project a declared item onto a window and count what the windows
hold. `StableSort`, `CashFlow`, `Timeline`, `Degradation` and `Sweep` build the month's cash
timeline, sort it, take its peak and recommend the move. The main results: the peak is the worst
exposure over all instants and bounds every order that keeps each outflow behind the inflows dated
before it; the suggested sweep is the most that can be moved without some such order breaking the
safety margin; knowing less never lowers the figure, with the exact condition for the one case where
it can: losing the match of an inflow. `ClearingDays` and `Paydays` take the program's rule at its
word, that a debit may clear before any deposit of its calendar day: the figure that rule needs,
when the program's figure is that one, and exactly which bills it misses.

**Matching.** `DateText` is the stored text form of a date. `Matching` picks the transaction for an
occurrence, `MatchStore` is the decision table with the exact semantics of its statements,
`Resolution` is the pure meaning of one resolution pass, and `ScheduleService` the imperative
service proved against it. `Winners` states in plain figures what a pass does: which occurrences it
visits, which ledger row it settles each with, what the items were taught and which rows are
dropped. `Runs` proves uniqueness and the precedence of manual decisions over arbitrary
interleavings of steps, and `Convergence` that repeated passes over one ledger, one day and one set
of declared items reach a fixpoint.

**Categorization.** `Merchants` is the cleaned merchant and `Categorization` the rule engine, with
what it decides said without its own functions. `Recategorization` and `RuleService` prove that
re-resolving only the rows a rule change touches equals re-resolving all of them, over whole runs of
rule changes, overrides, arrivals and sweeps.

**The home page.** `Spending`, `Tracker`, `Reporting` and `Dashboard` compute the same sums by the
routes the program does and prove that they reconcile.

**Sync.** `TransactionTable` and `Sync` apply a bank's pages as one batch, and prove exactly when
that equals applying the pages one by one.

Instants are integers of nanoseconds in one zone of fixed offset, dates are day numbers, money is
`real` where the program uses floating point and integer cents where it uses cents. Optional values
stand for nil pointers and for zero times. Where a method is proved against a function, what that
function comes to is stated once more apart from it, in days, dollars, columns and texts. The clock,
new identifiers and the bank's answers are parameters.

## Where the code and its documentation differ

The model follows the code; each difference is a theorem.

- The forward window is documented to hold exactly one occurrence of every monthly item
  (src/internal/sweep/sweep.go:338-348). It holds none when the next month is too short for the
  item's day and the run falls on a later day (`Windows.ForwardWindowCount`, with the instance
  `Windows.JanuaryRunMissesThe30th`). Dually the lookback can hold two (`Windows.LookbackCount`).
- An unknown settled set is documented as the conservative reading
  (src/internal/sweep/sweep.go:222-226). That is true of outflows; for an inflow it is true exactly
  when the inflow had already fallen due (`Degradation.UnsettlingAnInflow`).
- A deposit is never to be assumed to clear before a debit posted the same day
  (src/internal/sweep/sweep.go:384-385). Events are compared by instant, occurrences are midnights of the
  program's zone (src/internal/schedule/schedule.go:213-227), and a card's dates are midnights of UTC
  (src/internal/plaid/entities.go:336-347, taken over unchanged at src/internal/accounts/accounts.go:202-216).
  In UTC or a zone behind it the rule holds for every amount; in a zone ahead of it, exactly when no card's
  date is the date of a coming inflow (`Paydays.CoveredInEveryZoneNotAhead`). Otherwise the paycheck sorts
  before the bill and the figure can leave out the whole of it (`Paydays.PaydayBillAheadOfUTC`).
- Stored dates sort chronologically, and read back, only for the years 0 to 9999
  (`DateText.KeysAgreeExactlyThrough9999`, `DateText.StoredDateReadsBack`).
- A row the bank refreshes after it was classified is never resolved again, so it stays in step with
  the rules exactly when the refresh does not change the engine's verdict
  (`RuleService.ArrivalKeepsStepExactlyWhenQuiet`).
- A batch loses a row that one page removes and a later page brings back (`Sync.ReaddedRowIsLost`).

## Model

| member | source | states |
|---|---|---|
| `Calendar.YearOf` | src/internal/core/timex/timex.go:20-23 | a day number lies in exactly the year whose first days bracket it |
| `Calendar.YearLength` | src/internal/core/timex/timex.go:58-60 | consecutive years start 365 days apart, 366 after a leap year |
| `Calendar.LengthIsGregorian` | src/internal/core/timex/timex.go:58-60 | the day before the next month's 1st, which is how the program finds a month's length, gives the Gregorian length |
| `Calendar.DaysInMonth` | src/internal/core/timex/timex.go:58-60 | every month has 28 to 31 days |
| `Calendar.MonthOf` | src/internal/core/timex/timex.go:20-23 | the month whose span contains the date |
| `Calendar.MonthIsUnique` | src/internal/core/timex/timex.go:20-23 | no other month's span contains it |
| `Calendar.DayOfMonth` | src/internal/core/timex/timex.go:71-79 | the day of the month is within the month's length |
| `Calendar.CivilRoundTrip` | src/internal/core/timex/timex.go:58-79 | day numbers and (month, day of month) determine each other, both ways |
| `Calendar.NextDayIsGregorian` | src/internal/core/timex/timex.go:58-79 | the successor of a date is the Gregorian one: the next day of the month, or the next month's 1st after its last |
| `Calendar.AddMonthsClampedLands` | src/internal/core/timex/timex.go:71-79 | a clamped shift lands in the n-th month on, never on a later day of month, and on an earlier one only when that is the month's last |
| `Calendar.OneMonthSpan` | src/internal/core/timex/timex.go:71-79 | one clamped month, forwards or backwards, spans 28 to 31 days |
| `Calendar.MonthRangeIsTheMonth` | src/internal/core/timex/timex.go:30-34 | the half-open range contains precisely the month's dates |
| `Calendar.DaysLeftCountsDown` | src/internal/core/timex/timex.go:42-54 | the days left count down to 1 on the month's last day and the guarding clamp never fires |
| `DateText.OccurrenceKeyIsInjective` | src/internal/schedule/schedule.go:300-302 | two dates with one text key are one date, in any year |
| `DateText.MonthDayShape` | src/internal/schedule/schedule.go:300-302 | the key ends in -MM-DD, whose digits read as the month and the day |
| `DateText.YearTextShape` | src/internal/schedule/schedule.go:300-302 | and begins with digits that read as the year, four of them exactly for the years 0 to 9999 |
| `DateText.KeysSortChronologically` | src/internal/core/db/sqlc/schedule_matches.sql.go:137-159 | within four-digit years the text comparison of the range query is calendar comparison |
| `DateText.KeysAgreeExactlyThrough9999` | src/internal/core/db/sqlc/schedule_matches.sql.go:137-159 | text order agrees with calendar order on all dates through a year if and only if that year is at most 9999 |
| `DateText.FiveDigitYearSortsFirst` | src/internal/core/db/sqlc/schedule_matches.sql.go:137-159 | every date of 9999 precedes every date of 10000 and its text follows |
| `DateText.StoredDateReadsBack` | src/internal/schedule/repo.go:217-239 | writing a date and parsing it returns the date exactly for four-digit years, and fails otherwise |
| `DateText.HolderIsInjective` | src/internal/schedule/schedule.go:468-471 | a holder text names one occurrence of one item, even when item ids contain the separator |
| `Schedule.NormalizeSettles` | src/internal/schedule/service.go:371-405 | an accepted item is a usable declaration, is accepted unchanged again, and keeps its money and direction |
| `Schedule.NormalizesExactly` | src/internal/schedule/service.go:371-405 | an item is accepted if and only if its trimmed name has 1 to the most characters allowed and its cleaned declaration is usable, and is stored as that declaration |
| `Schedule.BetweenIsExact` | src/internal/schedule/schedule.go:176-188 | the specification of the projection: strictly ascending, and precisely the series' dates inside the window |
| `Schedule.SeriesByTheCalendar` | src/internal/schedule/schedule.go:195-256 | the series by the calendar alone: the declared day of every month, clamped to the month, or every fourteenth day from the anchor in both directions |
| `Schedule.MonthlyOccurrences` | src/internal/schedule/schedule.go:195-211 | the month-cursor loop ends and returns that projection for a monthly item, whatever the instants of the window |
| `Schedule.BiweeklyOccurrences` | src/internal/schedule/schedule.go:232-256 | the backward and forward cursor loops end and return that projection for a fortnightly item |
| `Schedule.Occurrences` | src/internal/schedule/schedule.go:176-188 | the projection for either cadence, and nothing for an inverted window |
| `Windows.WindowDates` | src/internal/sweep/sweep.go:349-353 | the run's window spans today through the day before the horizon's date |
| `Windows.HorizonIsAMonthOn` | src/internal/sweep/sweep.go:183-185 | the horizon is the run's time of day, on the date one clamped month on |
| `Windows.LookbackDates` | src/internal/schedule/schedule.go:162-167 | the lookback starts one clamped month, or fourteen days, before today |
| `Windows.ForwardWindowCount` | src/internal/sweep/sweep.go:338-353 | the forward window holds exactly one occurrence of a monthly item, except none when next month's length is at most the item's day and that is before today's day of month; never two |
| `Windows.JanuaryRunMissesThe30th` | src/internal/sweep/sweep.go:338-353 | the documented "exactly one" fails for a run on 31 January 2023 and an item due on the 30th |
| `Windows.LookbackCount` | src/internal/schedule/schedule.go:151-167 | the lookback holds exactly one occurrence of a monthly item, except two in the dual corner case; never none |
| `Windows.FortnightCount` | src/internal/schedule/schedule.go:232-256 | any fourteen consecutive days hold exactly one occurrence of a fortnightly item |
| `Windows.BiweeklyLookbackCount` | src/internal/schedule/schedule.go:151-167 | so does its lookback, always |
| `Windows.OccurrencesAreSpaced` | src/internal/schedule/schedule.go:377-381 | two occurrences of one item are at least 28 days apart when monthly, 14 when fortnightly |
| `Windows.ToleranceWindowsAreDisjoint` | src/internal/schedule/schedule.go:377-381 | no transaction date is within the five-day tolerance of two occurrences of one item |
| `Windows.OccurrenceForBootstrap` | src/internal/schedule/schedule.go:311-332 | the chosen occurrence is nearest to the transaction over the whole infinite series, the earlier on a tie |
| `Windows.BracketHoldsTheNearest` | src/internal/schedule/schedule.go:337-342 | every occurrence outside the one-cadence bracket is strictly farther than one inside |
| `Windows.BracketIsNeverEmpty` | src/internal/schedule/schedule.go:311-332 | for every stored item the bracket holds an occurrence, so the fallback is unreachable |
| `StableSort.SliceStable` | src/internal/sweep/sweep.go:380-416 | the in-place stable sort leaves the array as the sorted rearrangement of what it held |
| `StableSort.SortedIsOrdered` | src/internal/sweep/sweep.go:380-416 | that rearrangement is in key order and loses or repeats nothing |
| `StableSort.SortedIsStable` | src/internal/categorization/categorization.go:217-239 | elements of one key keep their order |
| `StableSort.StableSortIsUnique` | src/internal/categorization/categorization.go:217-239 | order and stability determine the result, so any stable sort gives it |
| `CashFlow.SortKeyIsTheComparison` | src/internal/sweep/sweep.go:380-396 | the sort key orders events as the comparison does: by date, outflows before inflows |
| `CashFlow.Evaluate` | src/internal/sweep/sweep.go:380-416 | the figure is the peak of the sorted walk, every row carries its running total, and one row is marked |
| `CashFlow.PeakRowSetsTheFigure` | src/internal/sweep/sweep.go:396-416 | the marked row is the first whose running total is the figure; none is marked exactly when nothing is required |
| `CashFlow.PeakIsWorstExposure` | src/internal/sweep/sweep.go:370-416 | order-free form: no instant's outflows due by then, less inflows before it, exceed the figure, and unless it is zero some event's date attains it |
| `CashFlow.PeakBoundsEveryClearingOrder` | src/internal/sweep/sweep.go:370-391 | no rearrangement of the events that keeps every outflow behind the inflows dated before it runs higher than the figure; by the calendar day see `ClearingDays` |
| `CashFlow.LeastSafeOpening` | src/internal/sweep/sweep.go:370-379 | an opening balance keeps every such order at or above a floor if and only if it is at least the floor plus the figure |
| `ClearingDays.DayRequiredIsTheWorstDayOrder` | src/internal/sweep/sweep.go:384-391 | the figure by the calendar day is the highest that any order within the days runs, and one runs as high |
| `ClearingDays.LeastSafeOpeningByTheDay` | src/internal/sweep/sweep.go:370-391 | an opening balance keeps every order within the days at or above a floor if and only if it is at least the floor plus the figure by the day |
| `ClearingDays.CoveredExactlyByTheDayFigure` | src/internal/sweep/sweep.go:384-391 | the program's figure covers every order within the days if and only if the figure by the day is no higher |
| `ClearingDays.WellPlacedIsCovered` | src/internal/sweep/sweep.go:384-391 | it does whenever no outflow is dated behind an inflow of its own day or a later one |
| `ClearingDays.DayFigureIsNoLower` | src/internal/sweep/sweep.go:384-391 | the figure by the day is never below the program's |
| `ClearingDays.WellPlacedFiguresAgree` | src/internal/sweep/sweep.go:384-391 | with no outflow so dated the two figures are the same |
| `ClearingDays.MisplacedOutflowIsNotCovered` | src/internal/sweep/sweep.go:384-391 | an outflow so dated, offset in full by the inflows up to it, adds nothing to the program's figure and at least the inflow's amount to the figure by the day |
| `CashFlow.RequiredFollowsExposure` | src/internal/sweep/sweep.go:370-416 | raising the exposure at every instant never lowers the figure |
| `Timeline.BuildTimeline` | src/internal/sweep/sweep.go:235-336 | the rows are what is owed and nothing else: for each item with a figure, each unsettled date of its series from one cadence back to the horizon's date, an outflow at the run instant with the date it was due once overdue, an inflow only if still to come; for each card its balance or the rest of a bill due by the horizon; and as many rows as that |
| `Timeline.ConsideredIsExact` | src/internal/sweep/sweep.go:286-297 | a date is considered if and only if it is an occurrence from one cadence before today to the day before the horizon's date |
| `Timeline.RowsCoverWhatIsOwed` | src/internal/sweep/sweep.go:235-336 | the specified rows are a row for each thing owed, with its name, direction, amount and date, and no other row |
| `Timeline.EachIsOwedOnce` | src/internal/sweep/sweep.go:235-336 | no date or card has two rows |
| `Timeline.ObligationIsByItsStatement` | src/internal/sweep/service.go:288-324 | a card owes by its statement exactly when the statement has a balance and the date its payment mode needs; due on that date or the offset from it; less the payments reported after it issued |
| `Timeline.RowsAreWithinRun` | src/internal/sweep/sweep.go:228-336 | whatever the banks report, every row is non-negative and dated between now and the horizon |
| `Timeline.ConsideredDates` | src/internal/sweep/sweep.go:286-297 | every considered date is an occurrence of its item before the horizon's date |
| `Degradation.NoStatementIsTheWorstCase` | src/internal/sweep/sweep.go:238-247 | whatever is reported of a card, it never weighs more at any instant than its whole balance at once, which is what it weighs with nothing reported |
| `Degradation.PaymentReleasesOnlyItsOwnStatement` | src/internal/sweep/service.go:303-324 | a reported payment lowers what the card weighs if and only if it is dated strictly after the statement issued, something was billed, and the rest of the bill is below the balance |
| `Degradation.CardWeightDegrades` | src/internal/sweep/service.go:288-324 | losing any part of a card's statement, or a non-negative payment, never lowers what the card weighs at any instant |
| `Degradation.DegradationIsConservative` | src/internal/sweep/sweep.go:228-336 | end to end: with statements lost, payments lost, outflows raised or un-settled, inflows lowered or dropped, the required figure never falls |
| `Degradation.NothingSettledIsConservativeForOutflows` | src/internal/sweep/sweep.go:222-226 | with only outflows declared, knowing no settlement at all never lowers the figure |
| `Degradation.UnsettlingAnInflow` | src/internal/sweep/sweep.go:298-336 | among any declared items, losing an inflow's match is conservative for every set of cards if and only if the inflow had already fallen due |
| `Degradation.UnsettlingLowers` | src/internal/sweep/sweep.go:298-336 | for an inflow still to come among any items, a card for which losing its match strictly lowers the figure |
| `Paydays.OnlyCardsFallBehind` | src/internal/sweep/sweep.go:228-336 | in a run only a card's payment can be dated behind an inflow of its own day or a later one; with none so dated every row is well placed |
| `Paydays.CoveredWhateverTheAmounts` | src/internal/sweep/sweep.go:384-391 | for any cards, items and settlements: every order within the days is covered whatever the amounts if and only if no card's payment falls behind a coming inflow |
| `Paydays.CardDueOnAPayday` | src/internal/sweep/sweep.go:384-391 | for a card due on the day of a coming inflow: covered whatever the card's amount if and only if it is due no later than the inflow's midnight |
| `Paydays.CardDueOnAPaydayByTheLocalDay` | src/internal/sweep/sweep.go:384-391 | by the local day: if and only if the card is due at midnight |
| `Paydays.BankDatedCardFallsBehind` | src/internal/plaid/entities.go:336-347 | a card dated at the bank's midnight falls behind exactly the inflows of its own date, and only in a zone ahead of the bank's |
| `Paydays.CoveredInEveryZoneNotAhead` | src/internal/plaid/entities.go:336-347 | for bank-dated cards: covered whatever the amounts if and only if the zone is not ahead of the bank's or no card's date is a coming payday |
| `Paydays.PaydayBillAheadOfUTC` | src/internal/sweep/sweep.go:384-391 | nine hours ahead of UTC, a bill of a paycheck's amount due on payday: nothing is required, and with the debit first the whole amount is missing |
| `Sweep.DeriveAccounts` | src/internal/sweep/service.go:224-275 | balances are used only where exactly one account of the kind exists, has a balance and was confirmed within a day; each failure is reported apart; the cards kept are those with a balance so confirmed |
| `Sweep.DeriveCards` | src/internal/sweep/service.go:259-272 | the card loop keeps the reliable cards and reports an unknown and a stale balance if and only if one occurs |
| `Sweep.ReasonsFor` | src/internal/sweep/sweep.go:451-473 | each reason is listed if and only if its own flag is set, once, in the fixed order; none exactly when the run is not blocked |
| `Sweep.Compute` | src/internal/sweep/sweep.go:451-508 | blocked runs carry their reasons; others conserve checking − sweep = required + margin, with the direction by sign and the evaluated timeline |
| `Sweep.SuggestedSweepIsTheMostThatIsSafe` | src/internal/sweep/sweep.go:476-508 | moving an amount leaves every order that keeps outflows behind earlier inflows at or above the safety margin if and only if it is at most the suggested sweep |
| `Sweep.SuggestedSweepIsSafeByTheDay` | src/internal/sweep/sweep.go:476-508 | in every order within the calendar days, if and only if it is at most checking less margin less the figure by the day, which is the suggested sweep whenever no card falls behind a coming inflow |
| `Sweep.RecommendationIsWorth` | src/internal/sweep/sweep.go:476-508 | both at once, for every amount and every reading of the days |
| `Sweep.DueNowIsReservedInFull` | src/internal/sweep/sweep.go:298-336 | whatever income is expected, all that is already due is part of the required figure |
| `Sweep.OverdueIsReserved` | src/internal/sweep/sweep.go:296-336 | the required figure is at least the sum, over the items, of each unsettled outflow that has fallen due since one cadence ago |
| `Sweep.SortedShowsWhatIsOwed` | src/internal/sweep/sweep.go:380-416 | sorting and marking lose nothing: the timeline shown has a row for each thing owed, once, and no other |
| `Sweep.LookupCoversTheTimeline` | src/internal/sweep/service.go:184-200 | every occurrence the timeline asks about lies in the text range the service reads |
| `Sweep.SettledLookupLosesNothing` | src/internal/sweep/service.go:184-200 | the timeline from the range query is the one the whole decision table gives |
| `Sweep.Run` | src/internal/sweep/service.go:161-204 | end to end over accounts, items and the table: attention exactly when an account fails, with the reasons the accounts give; else a timeline of everything owed and nothing else, the required figure of everything known, at least the sum of the overdue outflows, and a suggested sweep that is the most that is safe to move |
| `Sweep.Neighbors` | src/internal/sweep/sweep.go:524-553 | a snapshot is found exactly when it exists, the newest for an empty id; its older neighbour is the next of the newest-first list and its newer one the one before |
| `Sweep.StepsUndoEachOther` | src/internal/sweep/sweep.go:524-553 | stepping to the older snapshot and back to the newer are inverse |
| `Matching.BeatsIsAnOrder` | src/internal/schedule/schedule.go:533-548 | the comparison is a strict weak order |
| `Matching.BestCandidate` | src/internal/schedule/schedule.go:444-466 | the loop with its tie flag returns a candidate if and only if it alone, of the free ones in the item's direction, at most five days off and of a fitting amount, has the fewest days off, and of as many days the fewest dollars |
| `Matching.BestIsTheNearest` | src/internal/schedule/schedule.go:486-548 | the specified winner is that candidate, in days and dollars |
| `Matching.AdmissibleCouldSettle` | src/internal/schedule/schedule.go:486-527 | admissible means direction, five days, and 5 percent or 5.00 off, or half to double under the learned merchant |
| `Matching.WinnerIsUnique` | src/internal/schedule/schedule.go:444-466 | a candidate that strictly beats all other eligible ones is the answer |
| `Matching.BestIgnoresOrder` | src/internal/schedule/schedule.go:444-466 | the answer is the same for every rearrangement of the candidates |
| `Matching.EffectiveAmount` | src/internal/schedule/schedule.go:100-122 | the declared figure, else the largest outflow or the smallest inflow matched, else none |
| `Matching.EffectiveAmountIgnoresOrder` | src/internal/schedule/schedule.go:100-122 | the figure is one value for every order of the matches |
| `Matching.Offer` | src/internal/schedule/schedule.go:634-647 | every unclaimed row stands in exactly one of the two lists, as often as it was read, by admissibility; claimed rows in neither |
| `MatchStore.Store.InsertAuto` | src/internal/core/db/sqlc/schedule_matches.sql.go:74-92 | an automatic row with the transaction is added only where the occurrence has none; the statement fails exactly when another occurrence holds the transaction, and then changes nothing |
| `MatchStore.Store.UpdateAuto` | src/internal/core/db/sqlc/schedule_matches.sql.go:227-248 | only an automatic row is rewritten, under the same condition |
| `MatchStore.Store.UpsertManual` | src/internal/core/db/sqlc/schedule_matches.sql.go:250-271 | a manual row with the transaction replaces whatever row the occurrence had, under the same condition |
| `MatchStore.Store.UpsertAuto` | src/internal/schedule/repo.go:146-159 | the two statements together: a manual row stands, any other becomes an automatic one, or nothing changes exactly when another occurrence holds the transaction |
| `MatchStore.Store.DeleteMatch` | src/internal/core/db/sqlc/schedule_matches.sql.go:13-30 | one row goes and the index still holds |
| `MatchStore.Store.DeleteMatchesForItem` | src/internal/core/db/sqlc/schedule_matches.sql.go:32-41 | precisely the item's rows go |
| `MatchStore.Store.MatchesInRange` | src/internal/core/db/sqlc/schedule_matches.sql.go:137-142 | every row whose text date is in the range, once, ordered by item and then date |
| `MatchStore.Store.SettledMatches` | src/internal/schedule/repo.go:195-213 | every row naming a transaction, once |
| `MatchStore.Store.LatestManualMatches` | src/internal/schedule/repo.go:177-191 | for each item with one, the row of its latest hand-settled occurrence |
| `MatchStore.LatestManualIsUnique` | src/internal/core/db/sqlc/schedule_matches.sql.go:94-106 | that row is one per item |
| `MatchStore.StatementsKeepUnique` | src/internal/core/db/sqlc/schedule_matches.sql.go:74-78 | every statement, including the state between the two of an automatic write, keeps one occurrence per transaction |
| `Resolution.VisitsAreDistinct` | src/internal/schedule/service.go:525-545 | a pass visits each occurrence of each item in its lookback once |
| `Resolution.ScanKeepsClaims` | src/internal/schedule/service.go:540-562 | the greedy scan never releases a claim, and its decisions name pairwise distinct occurrences and transactions |
| `Resolution.DecisionsAreAssignable` | src/internal/schedule/service.go:525-565 | from any table the index accepts, a pass's decisions are distinct and conflict with no row |
| `Resolution.RecordingNeverConflicts` | src/internal/schedule/service.go:484-491 | every write of the decisions, in order, goes through, and the index holds after each |
| `Resolution.PassWritesInFull` | src/internal/schedule/service.go:506-566 | a whole pass from any such table never fails, changes exactly the decided automatic rows, and keeps the index |
| `Resolution.LearnedIsDistinctive` | src/internal/schedule/service.go:612-668 | no two items are matched on the same learned merchant |
| `Resolution.LearnedComesFromHandSettledRows` | src/internal/schedule/service.go:612-668 | what is learned depends only on hand-settled rows and the ledger, so automatic writes never change it |
| `Winners.VisitsAreExact` | src/internal/schedule/service.go:546-553 | a pass visits an occurrence if and only if it is one of an active item's, from one cadence ago to today |
| `Winners.RowsInReachAreCandidates` | src/internal/schedule/service.go:546-549 | every checking row within five days of a visited occurrence is weighed for it |
| `Winners.ChoiceIsNearestInLedger` | src/internal/schedule/service.go:546-558 | the choice for a visited occurrence is, of all the ledger's checking rows, the one that could settle it and is nearer than every other that could |
| `Winners.DecisionsAreTheNearest` | src/internal/schedule/service.go:525-565 | a pass decides for a transaction if and only if it is that row, given the claims made by then |
| `Winners.ClaimsComeFrom` | src/internal/schedule/service.go:510-562 | a claim is one the table holds or one an earlier visit of the pass made, and is held by that occurrence |
| `Winners.TableClaims` | src/internal/schedule/service.go:510-525 | the table claims exactly the transactions it holds |
| `Winners.PassSettlesWithTheNearest` | src/internal/schedule/service.go:506-566 | after a pass each visited occurrence holds the nearest row that could settle it, unless its row is the user's, and keeps what it had where none is nearest |
| `Winners.UnvisitedKeepTheirRows` | src/internal/schedule/service.go:506-566 | an occurrence the pass does not visit keeps the row it had, unless it was orphaned |
| `Winners.LatestManualIsLatest` | src/internal/core/db/sqlc/schedule_matches.sql.go:94-106 | within four-digit years the row the query picks is the item's latest occurrence settled by hand |
| `Winners.LearnedIsWhatTeachesAlone` | src/internal/schedule/service.go:612-668 | an item learned a merchant if and only if its latest hand-settled row names a ledger row of that merchant and no other active item's does |
| `Winners.DroppedAreOrphaned` | src/internal/schedule/service.go:568-610 | a row is dropped if and only if it is dated from the earliest lookback to today and names a transaction no ledger row has |
| `Runs.StepKeepsUnique` | src/internal/schedule/service.go:420-610 | no user or automatic step leaves a transaction settling two occurrences |
| `Runs.AfterRun` | src/internal/schedule/service.go:420-610 | nor does any run of steps |
| `Runs.StepLeavesManualRow` | src/internal/schedule/service.go:448-491 | only a user step on the occurrence, its item's deletion, or an orphan drop of a vanished transaction changes a manual row |
| `Runs.ManualRowStands` | src/internal/schedule/service.go:448-610 | over any interleaving without such a step, the manual row is untouched |
| `Runs.ClearOutlivesEveryPass` | src/internal/schedule/service.go:448-456 | a cleared occurrence stays cleared through passes over any ledgers |
| `Runs.ConfirmedMatchOutlivesPasses` | src/internal/schedule/service.go:458-479 | a confirmed match survives every pass whose ledger still has its transaction |
| `ScheduleService.EarliestOf` | src/internal/schedule/schedule.go:566-574 | the earliest of today and the items' lookback starts |
| `ScheduleService.Service.MatchOccurrence` | src/internal/schedule/service.go:420-426 | the occurrence gets a manual row with the transaction; it fails, changing nothing, exactly when the transaction settles another occurrence |
| `ScheduleService.Service.ClearOccurrence` | src/internal/schedule/service.go:454-456 | a clear is a manual row without a transaction and never fails |
| `ScheduleService.Service.ConfirmOccurrence` | src/internal/schedule/service.go:467-479 | a settled occurrence becomes the user's with the same transaction; anything else is left alone |
| `ScheduleService.Service.DeleteItem` | src/internal/schedule/service.go:352-360 | an item's decisions go with it |
| `ScheduleService.Service.RecordAutoMatches` | src/internal/schedule/service.go:484-491 | the decisions are written in order up to the first refusal |
| `ScheduleService.Service.DropOrphanedMatches` | src/internal/schedule/service.go:576-610 | precisely the settled rows of the window whose transaction is gone are deleted |
| `ScheduleService.Service.LearnedMerchants` | src/internal/schedule/service.go:620-668 | the loop over teaching transactions, counts and deletions gives the declarative learned map |
| `ScheduleService.ClaimedFrom` | src/internal/schedule/service.go:510-540 | every settled transaction is claimed by the occurrence that holds it |
| `ScheduleService.Service.Decide` | src/internal/schedule/service.go:525-565 | the nested greedy loops with the claim map compute the specified decisions |
| `ScheduleService.Service.ResolveOccurrenceMatches` | src/internal/schedule/service.go:506-566 | the whole pass comes to the specified pass; without a ledger it changes nothing |
| `ScheduleService.Service.SettledOccurrences` | src/internal/schedule/service.go:430-446 | the grouped set answers for an item and date exactly as the table does within the text range |
| `Convergence.CountBetter` | src/internal/schedule/schedule.go:533-548 | a rank is bounded by the number of candidates |
| `Convergence.ChangeIsBetter` | src/internal/schedule/service.go:540-562 | a pass moves an occurrence only to an admissible transaction, and from an admissible one only to a strictly better |
| `Convergence.OnePassCleans` | src/internal/schedule/service.go:506-525 | after one pass no row of the window names a vanished transaction |
| `Convergence.RankFalls` | src/internal/schedule/service.go:525-565 | a pass raises no occurrence's rank and lowers that of each it changed |
| `Convergence.ChangingPassLowersRank` | src/internal/schedule/service.go:525-565 | a pass that changes the table lowers the total rank |
| `Convergence.SettlesWithin` | src/internal/schedule/service.go:525-565 | at most as many passes change a clean table as its total rank |
| `Convergence.ResolutionConverges` | src/internal/schedule/service.go:506-566 | from any table the index accepts, passes reach a fixpoint within an explicit bound and stay there |
| `Merchants.FieldsAreWords` | src/internal/categorization/categorization.go:447-453 | splitting yields words without spaces that hold every letter of the text, in order |
| `Merchants.JoinedWordsSplit` | src/internal/categorization/categorization.go:447-453 | words joined with spaces split into the same words again |
| `Merchants.StoreNumberIsDigitsBehindMarks` | src/internal/categorization/categorization.go:455-469 | a store number is one digit or more behind any number of # and * |
| `Merchants.DropStoreNumbers` | src/internal/categorization/categorization.go:447-453 | all trailing store numbers go and nothing else |
| `Merchants.CleanMerchant` | src/internal/categorization/categorization.go:433-453 | the provider's name without its outer spaces; else the counterparty's words in capitals, less exactly the trailing store numbers |
| `Categorization.MatchingRulesBestFirst` | src/internal/categorization/categorization.go:217-239 | the loop and in-place sort give the applicable rules stably sorted by precedence |
| `Categorization.AppliesIsReaching` | src/internal/categorization/categorization.go:217-231 | a rule applies if and only if its text stands somewhere in the merchant, letter for letter in either case, and the category it spends on is not archived |
| `Categorization.FirstMatchLeads` | src/internal/categorization/categorization.go:217-249 | from any list of rules the first match is the one that reaches the merchant with the longest text, of those the latest edited, of those the first listed; there is none exactly when none reaches it |
| `Categorization.FirstMatchIsWinner` | src/internal/categorization/categorization.go:217-249 | from any listing of the table the first match is the rule that takes precedence over every other that applies, and there is none exactly when none applies |
| `Categorization.WinnerGoverns` | src/internal/categorization/categorization.go:217-249 | the rule that takes precedence is the longest, then the latest edited, then the one of the greatest id |
| `Categorization.SomeRuleWins` | src/internal/categorization/categorization.go:201-208 | unless no rule applies, one takes precedence over all others |
| `Categorization.PrimariesNameTheSeeded` | src/internal/categorization/categorization.go:95-112 | each spending primary names a category the migration seeds, the one of its own name in lower case |
| `Categorization.SeededIsNamed` | src/internal/categorization/categorization.go:46-61 | and each seeded category has its primary |
| `Categorization.WithoutRulesIsByTheBank` | src/internal/categorization/categorization.go:186-283 | where no rule decides: the three transfer signals, income, the live seeded category the primary reads as, then the sign of the amount |
| `Categorization.WinnerDecides` | src/internal/categorization/categorization.go:177-208 | that rule is one, and its verdict is the engine's |
| `Categorization.ResolveCategorization` | src/internal/categorization/categorization.go:177-196 | the override unchanged; else the classification of the rule that leads the list, with its category for spending and none otherwise; else what the bank says; else spending for an outflow and review for an inflow |
| `Categorization.ListingDoesNotMatter` | src/internal/categorization/service.go:60-76 | the verdict over a listing is a function of the rule table alone |
| `Categorization.ResolveTransferSubtype` | src/internal/categorization/categorization.go:376-404 | a destination is chosen if and only if exactly one leg of another account has the amount within the window of days, and it is that leg's account and kind |
| `TransactionTable.Ledger.UpsertTransaction` | src/internal/core/db/sqlc/transactions.sql.go:959-1005 | the bank's columns of one row are rewritten; an old row keeps its facets; a new one is unclassified, not overridden and without a destination |
| `TransactionTable.Ledger.SetCategorization` | src/internal/core/db/sqlc/transactions.sql.go:885-914 | only the verdict of one row changes, never its override flag |
| `TransactionTable.Ledger.OverrideCategorization` | src/internal/core/db/sqlc/transactions.sql.go:832-860 | one row gets the user's verdict and is overridden; off Transfer it loses its transfer facet, on Transfer it keeps it |
| `TransactionTable.Ledger.DeleteTransaction` | src/internal/core/db/sqlc/transactions.sql.go:14-22 | one row goes |
| `Recategorization.ResolvedIsTheVerdict` | src/internal/categorization/service.go:60-76 | a verdict is the engine's if and only if it is the outcome of the rule that governs the cleaned merchant, its category with spending alone, or where no rule reaches it what the bank says |
| `Recategorization.IncrementalRecategorizes` | src/internal/transactions/service.go:759-809 | the pass leaves a table if and only if each row not overridden whose merchant reads a substring has that verdict, with its other columns as they were, and every other row is as it was |
| `Recategorization.GovernedRowsEndWith` | src/internal/transactions/service.go:759-809 | every row not overridden that a rule governs ends with that rule's outcome, once a pass reads its text |
| `Recategorization.UninvolvedRuleDecidesNothing` | src/internal/categorization/categorization.go:177-248 | adding, editing or removing a rule that does not apply to a merchant changes no verdict there |
| `Recategorization.UntouchedRowKeepsItsVerdict` | src/internal/transactions/service.go:797-809 | a row containing neither the old nor the new substring has the same verdict before and after |
| `Recategorization.IncrementalEqualsFull` | src/internal/transactions/service.go:759-783 | re-resolving the touched rows equals re-resolving every row if and only if the untouched rows agreed with the engine before |
| `Recategorization.AgreementSurvivesRuleChanges` | src/internal/categorization/service.go:297-339 | from a table in agreement the incremental pass is the full one and leaves every row in agreement with the new rules |
| `RuleService.ListRules` | src/internal/categorization/service.go:264-270 | every rule once, most recently edited first, ids breaking ties |
| `RuleService.ValidateRule` | src/internal/categorization/service.go:344-360 | accepted exactly for a non-blank substring with a usable outcome; a category exactly for spending |
| `RuleService.DedupeNonEmpty` | src/internal/categorization/service.go:382-393 | the same non-empty substrings, each once |
| `RuleService.MatchesAnySubstring` | src/internal/transactions/service.go:797-809 | true exactly when some trimmed non-blank substring stands in the merchant, in any case |
| `RuleService.SameSubstringsTouchTheSame` | src/internal/categorization/service.go:365-393 | dropping repeated and empty substrings changes no row of the pass |
| `RuleService.Service.Resolve` | src/internal/categorization/service.go:60-76 | the verdict of the rule that governs the cleaned merchant, or what the bank says where none reaches it, whatever order the rules are listed in |
| `RuleService.Service.ResolveAndWrite` | src/internal/transactions/service.go:442-454 | the row ends with its verdict and the reported flag says whether it differed |
| `RuleService.Service.ApplyCategorization` | src/internal/transactions/service.go:759-783 | exactly the touched rows not overridden are resolved, in any order, and the count is the number of rows that changed |
| `RuleService.Service.ReapplyFor` | src/internal/categorization/service.go:365-378 | the same for the raw list of substrings |
| `RuleService.Service.CreateRule` | src/internal/categorization/service.go:276-295 | the rule is stored trimmed, with a category for spending alone; every row not overridden that it governs ends with the user's outcome; a table in agreement stays so, as if every row were resolved again; a refusal changes nothing |
| `RuleService.Service.EditRule` | src/internal/categorization/service.go:300-325 | likewise over the union of the old and new substrings |
| `RuleService.Service.DeleteRule` | src/internal/categorization/service.go:330-339 | likewise for the rows the rule had decided |
| `RuleService.Service.CategorizeUncategorized` | src/internal/transactions/service.go:426-437 | precisely the rows at the default and not overridden get their verdict |
| `RuleService.NewRowIsSwept` | src/internal/transactions/service.go:416-437 | a row that arrives new has its verdict on the rules after the next sweep |
| `RuleService.ArrivalKeepsStepExactlyWhenQuiet` | src/internal/transactions/service.go:416-437 | a refreshed row stays in step with the rules if and only if it is new, overridden, unresolved, or its verdict is unchanged |
| `RuleService.SameReadingIsQuiet` | src/internal/transactions/service.go:442-454 | a refresh that keeps the cleaned merchant, the bank category and the sign of the amount changes no verdict |
| `RuleService.StepKeepsStep` | src/internal/categorization/service.go:276-339 | every rule change, override, quiet arrival or sweep keeps every row in step |
| `RuleService.RunKeepsStep` | src/internal/categorization/service.go:276-339 | so does any run of them |
| `RuleService.SweptRunAgrees` | src/internal/transactions/service.go:416-437 | one sweep after any such run, every row not overridden carries the engine's verdict under the rules of that moment |
| `RuleService.OverrideStands` | src/internal/transactions/service.go:754-783 | a manual verdict and its facets stand through any run that does not override the row again |
| `Spending.DisjointNetsAdd` | src/internal/tracker/tracker.go:135-145 | the net spends on disjoint sets of categories add up to that of their union |
| `Spending.CoveredAndLeftOut` | src/internal/tracker/tracker.go:181-191 | what a set of limits covers and what it leaves out are all of the spending |
| `Tracker.PaceFor` | src/internal/tracker/tracker.go:226-232 | the daily pace is the largest whole number of cents that lasts the days left, zero when nothing remains |
| `Tracker.RatioOf` | src/internal/tracker/tracker.go:238-243 | the share of the budget spent, zero without a budget |
| `Tracker.ProgressFor` | src/internal/tracker/tracker.go:246-252 | the actual, the target and the share of it |
| `Tracker.SumSpend` | src/internal/tracker/tracker.go:135-145 | the map loop holds each category's net, the uncategorized net and the total |
| `Tracker.MeasureLimits` | src/internal/tracker/tracker.go:158-179 | each limit is measured against its own category's net: spent and remaining make up the limit, it is over exactly when nothing remains and more, the pace lasts the days left and the ratio is its share; the totals are the sums of the rows |
| `Tracker.SumUnbudgeted` | src/internal/tracker/tracker.go:181-188 | the loop over the map, in any order, sums the categories no limit names |
| `Tracker.ResidualIsTheRest` | src/internal/tracker/tracker.go:181-191 | unbudgeted and uncategorized spending are together everything no limit covers |
| `Tracker.BuildTracker` | src/internal/tracker/tracker.go:135-213 | actuals only exactly when no budget is set, else the specified plan |
| `Tracker.RemainingIsPlanLessSpending` | src/internal/tracker/tracker.go:199-207 | the remainders of all rows total income − savings − spending, less exactly what a repeated limit counts again |
| `Tracker.DistinctLimitsConserve` | src/internal/tracker/tracker.go:199-207 | with one limit a category, that is conservation with nothing counted twice |
| `Reporting.FirstSeen` | src/internal/reporting/reporting.go:100-140 | the categories spent on, each once |
| `Reporting.AddSpending` | src/internal/reporting/reporting.go:118-138 | adding a row through the index map keeps one entry a category with its whole net |
| `Reporting.BuildWrap` | src/internal/reporting/reporting.go:95-154 | income, savings, spending and surplus of the rows, the grouping, and settling exactly while a row is pending |
| `Reporting.GroupsReconcile` | src/internal/reporting/reporting.go:116-140 | over any set of categories the entries sum to what the rows do |
| `Dashboard.CentsOfNegated` | src/internal/home/service.go:719-724 | rounding commutes with the sign |
| `Dashboard.CentsIsNearest` | src/internal/home/service.go:719-724 | the cents are within half a cent of the amount, halves going away from zero |
| `Dashboard.CentsOfDollars` | src/internal/home/service.go:719-729 | cents survive the trip through dollars |
| `Dashboard.MonthSpend` | src/internal/home/service.go:574-583 | the tracker's spending rows are the wrap's |
| `Dashboard.IncomeCents` | src/internal/home/service.go:587-595 | the tracker's income is the wrap's |
| `Dashboard.SavingsCents` | src/internal/home/service.go:599-607 | the tracker's savings are the wrap's |
| `Dashboard.CurrentMonthTracker` | src/internal/home/service.go:243-284 | the tracker of the month's rows |
| `Dashboard.MonthWrap` | src/internal/home/service.go:437-478 | the wrap of the month's rows |
| `Dashboard.ReadsAreExact` | src/internal/transactions/service.go:611-654 | each drill's own read loses no row its figure counts |
| `Dashboard.BucketDrill` | src/internal/home/service.go:322-335 | the kept rows are those of the bucket, and their cents sum to the net of its categories |
| `Dashboard.FigureDrill` | src/internal/home/service.go:360-383 | negating each row and rounding sums to the figure the tracker rounds first and negates after |
| `Dashboard.SpendDrill` | src/internal/home/service.go:292-351 | refused exactly for the residual of another month; else each row of the month in the bucket is listed once, in order, and no other, income with its sign turned; the total is the sum of the listed cents and the bucket's figure |
| `Dashboard.KeptAreListed` | src/internal/home/service.go:322-335 | of the month's rows a spending bucket lists the spending ones of its category, of none, or of none that is budgeted |
| `Dashboard.OrientedAreListed` | src/internal/home/service.go:360-383 | and the income and savings buckets the rows of their figure, income negated |
| `Dashboard.CategoryBuckets` | src/internal/home/service.go:390-416 | a category's bucket selects that category if and only if its id is not a reserved bucket name |
| `Dashboard.TrackerMatchesItsDrills` | src/internal/home/service.go:286-416 | income, savings, everything-else and each category of the tracker equal their drills |
| `Dashboard.WrapMatchesItsDrills` | src/internal/home/service.go:286-416 | income, savings and each entry of the wrap equal their drills, and the entries partition total spending |
| `Dashboard.TrackerMatchesWrap` | src/internal/home/service.go:243-478 | tracker and wrap of one month agree, and the tracker's remainders conserve the wrap's spending |
| `Sync.PullChanges` | src/internal/plaid/service.go:81-107 | all pages of the pull up to the page limit, or nothing at all |
| `Sync.WalkedIsThePull` | src/internal/plaid/service.go:81-107 | a pull is complete if and only if its pages are the bank's answers one after another, each asked for with the cursor before, up to the first with no more behind it or the page limit |
| `Sync.RefusalIsWalkedInto` | src/internal/plaid/service.go:81-107 | a pull is refused as soon as the bank does not answer behind such pages |
| `Sync.UpsertAll` | src/internal/transactions/service.go:388-405 | a list's upserts, skipping unknown accounts |
| `Sync.ApplyChanges` | src/internal/transactions/service.go:387-415 | additions, then modifications, then removals: a removed id is gone; any other the changes bring for a known account has that account and the bank's own date, amount, merchant, counterparty, category and status, of the last modification, else the last addition; nothing else changes |
| `Sync.BatchIsApplied` | src/internal/transactions/transactions.go:252-261 | the batch's writes leave every id with the columns the bank sent last, or without a row |
| `Sync.WhatBecomesOf` | src/internal/core/db/sqlc/transactions.sql.go:959-1005 | what any sequence of writes leaves at an id: its last columns, with its own facets unless it was ever removed |
| `Sync.BatchRearrangesPages` | src/internal/plaid/service.go:81-107 | gathering loses and repeats no write of the pages |
| `Sync.BatchEqualsPages` | src/internal/transactions/service.go:382-415 | the batch leaves the table the pages in order leave if and only if, for every id, the pages' last write is the batch's |
| `Sync.OrderlyPagesNeedNoOrder` | src/internal/transactions/service.go:382-415 | they are equal whenever no id is upserted after a page that removed it, nor added after a page that modified it |
| `Sync.BatchDropsWhatAnyPageRemoved` | src/internal/transactions/service.go:407-413 | an id that any page removes is absent after the batch |
| `Sync.PagesKeepWhatTheLastUpserts` | src/internal/transactions/service.go:382-415 | an id that the last page upserts and does not remove is present after the pages in order |
| `Sync.ReaddedRowIsLost` | src/internal/transactions/service.go:382-415 | so an input on which they differ: a row removed on one page and added on the next |
| `Sync.SyncKeepsFacets` | src/internal/core/db/sqlc/transactions.sql.go:959-1005 | no sequence of sync writes changes a facet of a row it never removes |
| `Sync.SyncConnection` | src/internal/transactions/service.go:354-380 | a complete pull leaves every row as the bank sent it and the cursor behind its last page; any other changes neither; an error exactly where the bank fails, a login awaiting the user is none |
| `Sync.SyncConnections` | src/internal/transactions/service.go:131-142 | every connection is tried, and each is counted once as synced or failed |
| `Sync.RefusedConnectionLeavesNoTrace` | src/internal/transactions/service.go:131-142 | the pass ends as if a refused connection had not been in the list |

## Left out

- HTTP handlers, views, the browser side, authentication, encryption, logos and the bank's HTTP client: plumbing around the modelled parts.
- Database failures other than the unique index: a statement that fails for another reason is not modelled, and a transaction is all or nothing.
- Time zones with changing offsets: one zone of fixed offset is modelled; rounding whole days across a clock change is not.
- Floating point rounding: money is exact.
- Cadence and direction texts outside the two values of each: validation rejects them before storage, and the datatypes have no other.
- Unicode: case folding is ASCII, white space is ASCII with U+0085 and U+00A0, and lengths are in characters.
- `MatchStore.Store.ListRows`: does not model the order in which a query without ORDER BY returns its rows; nothing proved depends on it.
- Dates outside the years 0 to 9999 in the decision table: rows are keyed by the date itself, and the text form is used for comparison and parsing, with the exact limits proved in `DateText`.
- Items with no declared amount in `Convergence`: their figure is computed from earlier matches, so admissibility would feed back on itself; `EffectiveAmount` is modelled alone, and the pass takes items with their figures resolved.
- The trailing window of those amounts, `AmountStates` and `MatchingWindow`: read models over the same projections.
- Completeness of the resolver (a free unambiguous candidate is always matched): not true of the code, since a cleared occurrence still claims its winner for the pass.
- That a row with a transfer subtype is classified as a transfer: not an invariant, since the automatic verdict does not clear the transfer facet.
- Injectivity of transfer pairing: two outflows may pair with one inflow by design, and the loop over all legs is not modelled.
- Archiving a category: it does not resolve rows again, so the archived set is fixed during a run of rule changes.
- Category names, labels, percentages and progress bars: display only.
- The descriptive columns of a synced row (description, website, logo, payment channel, confidence, the other instants): copied like the modelled ones and read by nothing modelled.
- Logo warming and the total-failure message of a sync pass: best effort, after the modelled steps.
