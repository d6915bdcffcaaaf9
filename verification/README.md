# HRIS backend: verified models

Dafny models of six parts of the HRIS backend, with proofs about whole runs of them.

- **Leave** (`LeaveCalc`, `LeaveLedger`, `LeaveModel`, `LeaveStore`, and the proofs in `LeaveRequests`,
  `LeaveEntries`, `LeaveBalances`, `LeaveBatches`, `LeaveAccounts`, `LeaveOutcomes`, `LeaveSubmission`,
  `LeaveApproval`): requests, an append-only signed ledger, enrollment, monthly accrual, year-end
  carry-over and manual adjustment, all acting on the same balances; and concurrent submits and approvals,
  serialized by the employee's and the request's row lock.
- **Attendance imports** (`Attendance`, `AttendanceRaces`): keyed punch creation, replay, conflict, soft
  deletion, reconciliation, and the race settled by the partial unique index.
- **Rate limiting** (`RateLimit`): the sliding window of per-key deques against the full attempt history.
- **Payroll** (`PayrollGeneration`, `PayrollOutcomes`, `SalaryWalk`, `Amortization`): exactly-once generation under an
  advisory lock, the mid-period salary walk, the loan schedule.
- **Refresh tokens** (`RefreshTokens`): rotation chains, permanent revocation, reuse detection.
- **Permissions** (`Rbac`): "module.action" strings against permission rows.

`Calendar`, `Rounding`, `Text` and `Wrappers` hold dates, rounding, whitespace and option types.

## How it is built

What a service call does is a function from one database value to the next and an answer
(`LeaveModel.Approve`, `Attendance.Create`, `RefreshTokens.Rotate`, ...). The classes (`LeaveTables`,
`DailyTimeRecords`, `SlidingWindowBackend`, `TokenTable`, `PermissionTable`) hold the tables as fields,
update them step by step as the services do, and every method is proved to have exactly the effect and
answer of its function. Runs are folds of such calls, or of protocol events where transactions interleave;
an event that cannot happen now (locking a held row, inserting under a pending key) leaves the world as it
is, so every sequence of events is a run. The run lemmas are about all of them.

Beside them each operation has a lemma that gives its answers and effects in terms of the rows and the
arguments, not of the helpers it is written with (`LeaveOutcomes`, `Attendance.CreateMeans`,
`RateLimit.AnswerMeans`, `RefreshTokens.RotateMeans`, `SalaryWalk.ProRateMeans`, ...).

Day amounts are integer hundredths of a day and money is integer cents, both exact; requested hours and
clock readings are reals. Dates are proleptic Gregorian ordinals (`Calendar.KnownDates` says where they stand), from 1 January of
year 1 to 31 December 9999, and a loop that would step past the last date fails as the date type does. Table rows are numbered by
insertion, and the number is the primary key. Formatted references (`LeaveRequest:<id>`,
`accrual-<year>-<month>`, ...) are constructors, and the payload fingerprint and the token digest are taken
to be injective.

## What was found

- **Deleted import keys.** The create path promises that a retry never resurrects a deliberately deleted
  punch. That holds unless some request had already looked past the deleted rows when the deletion
  happened; then it can fail. `AttendanceRaces.KeyReturnsIffInFlight` is the exact condition,
  `RetryCanResurrect` reaches the failing state from an empty table, and `DeletedKeyStaysDeleted` is the
  guarantee when nobody is in flight.
- **retry_after.** The comment in the limiter calls it the earliest moment the caller could succeed. It can
  miss on either side. It always lies past the expiry of the oldest live attempt, by at most one second
  (`RateLimit.RetryAfterBounds`), and that expiry is what no hit can come before
  (`RateLimit.DeniedUntilExpiry`). After a peek that finds exactly the limit, hits are allowed from the expiry
  on, strictly before retry_after has passed (`RateLimit.AllowedBeforeRetryAfter`), so waiting it out is more
  than enough (`RateLimit.WaitThenHit`). After a refused hit it can be too short
  (`RateLimit.RetryAfterTooShortAfterHit`); `RateLimit.RetryAfterSuffices` says exactly when waiting it out is
  enough, and `RateLimit.FirstHitAfterRefusal` from when on the next hit is allowed.
- **Negative balances.** With calls one at a time a slot goes below zero exactly when a manual adjustment of
  that slot takes more than is there (`LeaveBalances.BelowZeroIffOverdrawn`, and over whole runs
  `BelowZeroOnlyByAdjustment`); `NegativeAdjustmentGoesBelow` is a concrete one. No other call takes a slot
  below zero, or further down once it is there (`StepHoldsUp`).
- **Concurrent approvals.** The row lock books a request once (`LeaveApproval.ApprovedOnce`), but it is on the
  request and not on the balance: approvals of two requests on one slot can both pass their check and together
  overdraw it (`LeaveApproval.TwoApprovalsOneBalance`, with the exact condition).
- **Year boundary.** A day-counted request is charged only weekdays of the year it starts in; the part after
  31 December is free (`LeaveCalc.DefaultCountStopsAtYearEnd`).
- **Primary salary.** Picking the first sorted record in force always picks the oldest record
  (`SalaryWalk.PrimaryIsOldest`), so the oldest record's pay type rules the whole walk.
- **Loan residue.** A half-up payment can leave a residue, always less than half a cent a term, unscheduled
  (`Amortization.ResidueExact`, `OneCentLeft`).
- **Permission payload.** The login payload lists what a role holds on an inactive module although the check
  refuses it (`Rbac.PayloadAgreesWhenActive`). Applying what was read from a role drops a row whose columns
  are all false, and changes nothing else (`Rbac.ApplyWhatWasRead`).

## Model

| member | source | states |
|---|---|---|
| LeaveCalc.LeaveDaysInRange | backend/app/leave/calc.py:12-48 | the counting loop returns 100 times the size of range ∩ schedule minus holidays, the half-up share of requested hours, or the error of a reversed range or of stepping past the last date |
| LeaveCalc.LeaveDaysMeans | backend/app/leave/calc.py:12-48 | the count case by case: when each error occurs, which days a schedule charges, which the default does, and the hours' share to the nearest hundredth |
| LeaveCalc.DefaultWorkdays | backend/app/leave/calc.py:51-60 | the loop builds exactly the Mondays to Fridays of the year, and fails for year 9999 |
| LeaveCalc.LeaveDaysAdditive | backend/app/leave/calc.py:42-48 | splitting a range in two under one schedule splits its count |
| LeaveCalc.DefaultCountStopsAtYearEnd | backend/app/leave/calc.py:39-48 | with the default schedule the days beyond the starting year's end are never charged |
| LeaveCalc.DefaultCountClosedForm | backend/app/leave/calc.py:39-48 | inside one year the default count is five per seven days plus a remainder that depends on the first weekday |
| LeaveCalc.WeekdaysOfYear | backend/app/leave/calc.py:51-60 | the closed form for a whole year, always 260 to 262 |
| LeaveCalc.WorkdaySet | backend/app/leave/calc.py:169-195 | the loop builds exactly the year's days on the shift's weekdays that are not holidays, and hands the hours through |
| LeaveCalc.WorkdaysMean | backend/app/leave/calc.py:183-193 | a day is on the schedule exactly if it is of the year, no holiday, and on a weekday the list numbers, 1 being Monday and 7 Sunday, or Monday to Friday without a list |
| LeaveCalc.HolidaysOutEitherWay | backend/app/leave/calc.py:169-195 | taking holidays out of the schedule or out of the count gives the same charge |
| LeaveCalc.GrantAntitone | backend/app/leave/calc.py:67-105 | the grant stays within 0 and the entitlement, never grows with a later hire date, and is the entitlement for a hire on 1 January |
| LeaveCalc.GrantMeans | backend/app/leave/calc.py:67-105 | everything, nothing, or for a hire within the year the share of its days from then on to the nearest hundredth; and exactly when the year is past the calendar |
| LeaveCalc.TwelveChunks | backend/app/leave/calc.py:108-114 | twelve rounded chunks are within six hundredths of the entitlement |
| LeaveCalc.CarryoverAmount | backend/app/leave/calc.py:117-143 | positive exactly when something remains and carry-over is on, not capped at nothing and not expired; then it is the balance or the cap, whichever is less |
| LeaveLedger.EmployeeLedger | backend/app/leave/selectors.py:187-216 | the row-by-row totals equal the separate filtered sums on every ledger |
| LeaveLedger.TotalsMean | backend/app/leave/selectors.py:187-216 | on every ledger the totals are made of the sums of each source, uses counted absolutely and net of reversals |
| LeaveLedger.RemainingIsSignedSum | backend/app/leave/selectors.py:214-216 | where uses are booked negative and credits positive, "remaining" is the plain signed sum of the slot |
| LeaveLedger.PagesJoin | backend/app/leave/selectors.py:219-280 | totals do not depend on skip and limit; in whichever single order the entries are listed, adjacent pages join exactly and one large page is the whole slot |
| LeaveStore.LeaveTables.SubmitRequest | backend/app/leave/services.py:66-147 | the table after the call, and the answer, are those of the submit function, on every branch |
| LeaveStore.LeaveTables.ApproveRequest | backend/app/leave/services.py:150-220 | as above for approve, with its balance check and consumed entry |
| LeaveStore.LeaveTables.RejectRequest | backend/app/leave/services.py:223-250 | as above for reject |
| LeaveStore.LeaveTables.CancelRequest | backend/app/leave/services.py:253-311 | as above for cancel, with the reversal in the year of cancellation |
| LeaveStore.LeaveTables.EnrollEmployee | backend/app/leave/services.py:314-369 | as above for enroll and its grant |
| LeaveStore.LeaveTables.RunMonthlyAccrual | backend/app/leave/services.py:372-442 | the nested loops write what the accrual fold does and return how many entries that is |
| LeaveStore.LeaveTables.RunYearEndCarryover | backend/app/leave/services.py:445-538 | the loop over the starting enrollments does what the carry-over fold does and returns how many targets it made |
| LeaveStore.LeaveTables.ApplyManualAdjustment | backend/app/leave/services.py:541-577 | as above for a manual adjustment |
| LeaveOutcomes.SubmitAnswers | backend/app/leave/services.py:72-116 | each answer to a submit has exactly its own condition on employee, policy, scopes, live requests, range and calendar |
| LeaveOutcomes.SubmitAcceptedIff | backend/app/leave/services.py:72-147 | in every run a submit is accepted exactly if employee and policy are there and admit each other, the range is the right way round and countable, and none of its days is taken by a live request |
| LeaveOutcomes.SubmitStores | backend/app/leave/services.py:98-133 | an accepted one stores one pending row of what was asked, charged the weekdays of its starting year or the hours' share of eight-hour days, and nothing else |
| LeaveOutcomes.DecisionMeans | backend/app/leave/services.py:150-311 | which status lets which decision through, each refusal, and that a decision writes its status and who took it on its own request only |
| LeaveOutcomes.UnknownRequest | backend/app/leave/services.py:160-264 | a decision on a request that is not there is not found and writes nothing |
| LeaveOutcomes.DecisionBooks | backend/app/leave/services.py:195-289 | the one entry an approval, or a cancellation of an approved request, writes, field by field, and that nothing else is booked |
| LeaveOutcomes.EnrollMeans | backend/app/leave/services.py:314-369 | each answer to an enrollment has exactly its own condition; an accepted one stores one enrollment and one grant entry of the same days |
| LeaveOutcomes.AdjustMeans | backend/app/leave/services.py:541-577 | each answer to an adjustment has exactly its own condition; an accepted one moves its own slot by the amount and no other |
| LeaveOutcomes.AccrualMeans | backend/app/leave/services.py:377-442 | one call adds an entry to an enrollment exactly if the month is one, its policy is undeleted, active and monthly, its year is the leave year and it has none for the month; each entry is its enrollment's, of a twelfth of the entitlement to the nearest hundredth |
| LeaveOutcomes.IdleNeverAccrues | backend/app/leave/services.py:377-383 | in every run an enrollment accrues nothing while its policy is annual, inactive or deleted |
| LeaveOutcomes.CarryoverMeans | backend/app/leave/services.py:454-521 | a target is made exactly for an account with an enrollment in the one year and none in the other, something left, and a policy undeleted, carrying over and not capped at nothing; it holds what is left or the cap if less, and for any other account nothing is made or booked |
| LeaveRequests.RunSound | backend/app/leave/services.py:66-311 | in every run an employee's pending and approved requests have pairwise disjoint ranges and each day-counted one is charged exactly its weekdays |
| LeaveRequests.YearlyChargeBounded | backend/app/leave/services.py:88-118 | what those starting in one year are charged adds up to at most the weekdays of that year |
| LeaveRequests.OverlapIsASharedDay | backend/app/leave/selectors.py:159-181 | in every run the overlap check finds a request other than the excluded one exactly when a live one of the employee has a day in common with the range |
| LeaveRequests.RangeHeldWhileLive | backend/app/leave/services.py:88-96 | in every run, as long as a submitted request is live every submit of the employee for a range that meets its own is refused and writes nothing |
| LeaveRequests.RangeFreedOnceRetired | backend/app/leave/services.py:223-311 | once a rejection or cancellation goes through nothing of the employee overlaps the range, and the same submit is accepted exactly when employee and policy still admit it |
| LeaveRequests.RetiredForGood | backend/app/leave/calc.py:150-166 | a rejected or cancelled request never changes in any run and refuses every later decision |
| LeaveSubmission.InterleavingSafe | backend/app/leave/services.py:80-146 | both hold however submits, each locking the employee row, checking and committing, interleave with each other, with crashes and with every other leave call |
| LeaveSubmission.AnswersMatchRows | backend/app/leave/services.py:118-146 | over those interleavings each submit told of a row was told of one that holds its own actor, employee, policy, dates and hours, no other submit was told of it, and every stored row was told to one |
| LeaveSubmission.AloneIsSubmit | backend/app/leave/services.py:80-146 | uninterrupted, the protocol is the plain submit |
| LeaveSubmission.CheckAloneIsNotEnough | backend/app/leave/services.py:80-96 | without the lock two passing checks can commit overlapping requests |
| LeaveApproval.ApprovedOnce | backend/app/leave/services.py:153-220 | however approvals, each locking the request's row, checking and committing, interleave with each other, with crashes and with every other call, an approved request has exactly one consumed entry, of its days |
| LeaveApproval.AloneIsApprove | backend/app/leave/services.py:153-220 | uninterrupted, the protocol is the plain approve |
| LeaveApproval.CheckAloneBooksTwice | backend/app/leave/services.py:160-168 | without the lock two passing checks of one request book it twice |
| LeaveApproval.TwoApprovalsOneBalance | backend/app/leave/services.py:180-188 | approvals of two requests on one slot that both passed their check leave it negative exactly when it does not cover both |
| LeaveEntries.EntriesTellHistory | backend/app/leave/services.py:165-311 | after any run a request has one consumed entry iff it was ever approved, one reversal iff it was then cancelled, opposite amounts, and a net cost of its days exactly while approved |
| LeaveEntries.StepAppends | backend/app/leave/models.py:322-346 | no call changes or removes a ledger entry, forgets a request, or changes who asked for which days |
| LeaveBalances.StepHoldsUp | backend/app/leave/services.py:178-521 | no call but a manual adjustment takes any slot below zero, or further down when it is below |
| LeaveBalances.BelowZeroIffOverdrawn | backend/app/leave/services.py:541-577 | a slot at zero or more goes below zero exactly by an accepted manual adjustment of that slot that takes more than is there |
| LeaveBalances.BelowZeroOnlyByAdjustment | backend/app/leave/services.py:178-577 | over every run: a slot was below zero at some moment exactly if at some moment such an adjustment was made |
| LeaveBalances.RemainingIsBalance | backend/app/leave/selectors.py:200-216 | in every run "remaining" is the plain signed sum of the slot's entries |
| LeaveBalances.BalanceNeverUnderDebits | backend/app/leave/services.py:541-577 | however far adjustments take a slot, in every run it never falls under what its negative ones add up to |
| LeaveBalances.BalanceNeverNegative | backend/app/leave/services.py:466-521 | a slot that is never adjusted downward is never negative in any run, whatever is done to other slots |
| LeaveBalances.CancelAfterApprove | backend/app/leave/services.py:178-291 | an approval takes the days from one slot only; whatever is called after it, the request stays approved or is cancelled, and while approved a cancellation is accepted and gives exactly those days to the year of cancellation |
| LeaveBalances.ApprovalNeedsBalance | backend/app/leave/services.py:180-188 | a pending request is approved exactly when its slot's signed sum covers its days |
| LeaveBalances.EnrollGrantsOnce | backend/app/leave/services.py:331-366 | enrolling grants one slot the year's days, and after any further calls a second enrollment fails without a write |
| LeaveBatches.AccruesAtMostOnce | backend/app/leave/services.py:404-421 | in every run, however policies change, an enrollment accrues at most once for a month |
| LeaveBatches.AccruesEachMonthOnce | backend/app/leave/services.py:388-440 | under a fixed monthly policy the accruals are one for each distinct month run, in any order and with any other calls between, and total the chunk times the months |
| LeaveBatches.TwelveMonthsMakeAYear | backend/app/leave/services.py:388-440 | twelve distinct months total within six hundredths of the entitlement |
| LeaveBatches.AccruesFromCreation | backend/app/leave/services.py:388-440 | in every run, from the call that makes it an enrollment under a fixed monthly policy gets one accrual for each distinct month run, and twelve months total within six hundredths of the entitlement |
| LeaveAccounts.RunBalanced | backend/app/leave/models.py:322-346 | in every run an employee's holdings under a policy, all years together, are its grants, accruals and manual adjustments less the days of its requests that stand approved |
| LeaveBatches.CarryoverConserves | backend/app/leave/services.py:466-521 | a carry-over run leaves the sum over all years of every employee and policy as it was |
| LeaveBatches.CarryoverMoves | backend/app/leave/services.py:466-521 | the count is the number of new enrollments and of entry pairs; each pair moves one positive amount between the two years, within the starting balance and the cap, for an account without a target |
| LeaveBatches.CarryComplete | backend/app/leave/services.py:477-489 | every enrollment of the year with something to carry has a target afterwards |
| LeaveBatches.CarryoverOnce | backend/app/leave/services.py:482-489 | a second identical run writes nothing and returns 0, and a run from a year to itself never writes |
| LeaveBatches.EnrollmentsStayUnique | backend/app/leave/models.py:201-203 | no run of calls violates the unique constraint on employee, policy and year |
| Attendance.DailyTimeRecords.CreateDtr | backend/app/attendance/services.py:80-231 | one call on an otherwise idle table does what the create function does, on every branch |
| Attendance.CreateRefuses | backend/app/attendance/services.py:117-154 | each of the six refusals of the input occurs exactly on its own condition on the punch and the directory, in the order of the checks, and writes nothing |
| Attendance.CreateMeans | backend/app/attendance/services.py:120-231 | from punch and table alone: when a create inserts, is refused as deleted, is replayed or conflicts; and a created or replayed row holds the punch's own employee, shift, UTC instants and key |
| Attendance.DailyTimeRecords.SoftDelete | backend/app/attendance/services.py:71-77 | only the named active row is marked deleted |
| Attendance.DailyTimeRecords.Reconcile | backend/app/attendance/routes.py:254-314 | one verdict for each key in the keys' order, and the count of exactly the unresolved ones |
| Attendance.VerdictPredictsCreate | backend/app/attendance/routes.py:272-311 | on a fixed table, for a request that names the key's employee by id or by code: committed never inserts, deleted is refused, not found inserts a valid request |
| Attendance.VerdictMeans | backend/app/attendance/routes.py:272-311 | each verdict has exactly its own condition on who may be seen and which rows are under the key |
| Attendance.UnresolvedCounts | backend/app/attendance/routes.py:276-314 | the count is the number of unresolved verdicts |
| AttendanceRaces.RunSafe | backend/app/attendance/services.py:156-231 | over every interleaving with deletes and crashes a key never has two active rows, every success names a committed row with the caller's own employee, key, times and shift, and no two requests are told they created one row |
| AttendanceRaces.SuccessIsThePunch | backend/app/attendance/services.py:120-231 | over every interleaving a request told of success was told of a row that is its own punch: employee, shift, login and logout as UTC instants, key |
| AttendanceRaces.RefusalsAreTrue | backend/app/attendance/services.py:157-222 | over every interleaving a refusal over the key is for a row really in the table: a conflict for one of other input, a deletion for a deleted one |
| AttendanceRaces.OneRowForAKey | backend/app/attendance/services.py:156-231 | without deletes at most one row is ever committed under a key, and it settles every request for the key: same input gets it, other input gets a conflict |
| AttendanceRaces.DeletedKeyStaysDeleted | backend/app/attendance/services.py:172-183 | a key deleted while no request is about to insert it never becomes active again, and every other request for it, begun or not, can end only refused as deleted |
| AttendanceRaces.KeyReturnsIffInFlight | backend/app/attendance/services.py:172-208 | a deleted key can become active again exactly when some request for it had already looked past the deleted rows |
| AttendanceRaces.RetryCanResurrect | backend/app/attendance/services.py:99-104 | that state is reachable, against what the docstring promises |
| AttendanceRaces.AloneIsCreate | backend/app/attendance/services.py:156-231 | uninterrupted, the protocol is the plain create call |
| RateLimit.SlidingWindowBackend.PruneBucket | backend/app/common/rate_limit.py:66-71 | the loop leaves the bucket pruned at the cutoff and no other key changed |
| RateLimit.SlidingWindowBackend.Hit | backend/app/common/rate_limit.py:92-104 | the call is recorded and answered as the history of calls determines |
| RateLimit.SlidingWindowBackend.Peek | backend/app/common/rate_limit.py:106-117 | the same for a peek, which records no attempt |
| RateLimit.PrunedIsLiveHistory | backend/app/common/rate_limit.py:66-71 | with one window the deque pruned at now is exactly the attempts since the last clear newer than now minus the window |
| RateLimit.StoredIsLiveHistory | backend/app/common/rate_limit.py:66-117 | the stored deque is that history after every timed call, except after a hit with a window of zero or less |
| RateLimit.SlidingBound | backend/app/common/rate_limit.py:55-60 | between two clears no half-open interval of one window's length holds more than limit allowed hits |
| RateLimit.PeekPredictsHit | backend/app/common/rate_limit.py:98-116 | a peek is allowed exactly when an immediate hit would be |
| RateLimit.AnswerMeans | backend/app/common/rate_limit.py:73-117 | every part of every answer from the attempt history: allowed, remaining, and retry_after |
| RateLimit.RetryAfterBounds | backend/app/common/rate_limit.py:83-87 | retry_after of a refusal exceeds the time to the oldest expiry by at most one second |
| RateLimit.DeniedUntilExpiry | backend/app/common/rate_limit.py:83-87 | every hit before that expiry is refused, whatever else is called short of a clear |
| RateLimit.FirstHitAfterRefusal | backend/app/common/rate_limit.py:83-104 | the first hit after a refusal is allowed exactly when all but the newest limit - 1 live attempts have left the window |
| RateLimit.WaitThenHit | backend/app/common/rate_limit.py:83-117 | after a peek refused with exactly limit live attempts, waiting retry_after is enough |
| RateLimit.AllowedBeforeRetryAfter | backend/app/common/rate_limit.py:83-117 | after such a peek a hit is allowed exactly from the oldest attempt's expiry on, which is strictly before retry_after has passed |
| RateLimit.RetryAfterSuffices | backend/app/common/rate_limit.py:83-117 | after any refused peek or hit, waiting retry_after is enough exactly when the attempt that must leave the window has left it by then |
| RateLimit.RetryAfterTooShortAfterHit | backend/app/common/rate_limit.py:83-87 | after a refused hit it may not be |
| PayrollGeneration.GeneratedExactlyOnce | backend/app/payroll/services.py:341-364 | over every interleaving a stored run was generated by exactly one call, has its caller and payload, and its entries once |
| PayrollOutcomes.GeneratedAsComputed | backend/app/payroll/services.py:353-363 | over every interleaving a call is as it was started, and what it generated is what its own preview computed |
| PayrollOutcomes.DeletedIffSomebodyDid | backend/app/payroll/services.py:353-363 | over every interleaving a stored run is deleted exactly if somebody deleted it after it was stored |
| PayrollGeneration.AnswersHonest | backend/app/payroll/services.py:347-351 | every answer is true of what is stored, and no call ever meets a duplicate key |
| PayrollGeneration.LaterCallsGetTheRun | backend/app/payroll/services.py:341-351 | once a run is stored, every call with its id without an answer yet - waiting for the lock, holding it, or not started - leaves it alone and is told of it if caller and payload match and it is not deleted, of a conflict if not |
| PayrollOutcomes.StoredRunAnswersEveryCall | backend/app/payroll/services.py:343-364 | the same over whole interleavings from an empty start: the stored run and its entries stay, and no open call is ever told anything else |
| PayrollOutcomes.OpenCallCanEnd | backend/app/payroll/services.py:343-351 | once the lock is free such a call's own three steps end it with that answer, writing nothing |
| PayrollOutcomes.GeneratedThenReturned | backend/app/payroll/services.py:345-363 | once some call was told it generated a run, every open or later call for the id can end only with the run, if caller and payload are the same and nobody deleted it, and with a conflict if not |
| PayrollOutcomes.FirstCallComputes | backend/app/payroll/services.py:345-353 | where no run is stored the call holding the lock computes; a failed preview can only end by saying so, with nothing stored |
| PayrollOutcomes.ComputedCallCanStore | backend/app/payroll/services.py:353-363 | a call that has computed can always go on to store its run, not deleted, with its entries, and is told so |
| PayrollGeneration.InsertNeverCollides | backend/app/payroll/services.py:353-358 | at the insert no run of that id is stored or pending |
| SalaryWalk.BasicPay | backend/app/payroll/services.py:146-164 | the single-rate branch pro-rates, the day walk pays the governing rates' sum, rounded once, and the walk fails when it would step past the last date |
| SalaryWalk.ProRateMeans | backend/app/payroll/services.py:55-63 | at one rate monthly pay is the worked days' share of the period to the nearest cent, halves to even, and any other pay the rate times the days worked; a monthly period of no days fails |
| SalaryWalk.WalkedPayMeans | backend/app/payroll/services.py:151-164 | walked pay is the sum of the days' governing rates, and over the days of the period to the nearest cent where the oldest record is monthly |
| SalaryWalk.WalkIsSegments | backend/app/payroll/services.py:151-163 | the walked sum is, over the records, days governed times rate |
| SalaryWalk.OrderIrrelevant | backend/app/payroll/services.py:81-82 | the order of the records makes no difference |
| SalaryWalk.MonthlyPayWithinRates | backend/app/payroll/services.py:158-164 | walked monthly pay lies between the lowest and the highest rate |
| SalaryWalk.EqualRatesAgree | backend/app/payroll/services.py:55-63 | with equal rates the walk pays what pro-rating over the whole period does |
| SalaryWalk.PrimaryIsOldest | backend/app/payroll/services.py:82-82 | the primary salary is always the oldest record |
| SalaryWalk.UniqueLatest | backend/app/payroll/services.py:303-309 | the deduplication keeps one record for each employee, a latest one |
| Amortization.CreateSchedule | backend/app/payroll/services.py:375-393 | the loop writes the recursive schedule, and fails for zero terms |
| Amortization.RowsAddUp | backend/app/payroll/services.py:380-393 | rows are thirty days apart, amounts between 0 and the payment, remaining balances the balance minus the prefix sum |
| Amortization.RowsFill | backend/app/payroll/services.py:380-393 | every row but the last is a full payment that leaves something owed; the last settles what it can and is last because nothing is left or no term is |
| Amortization.PaymentMeans | backend/app/payroll/services.py:375-379 | the payment is the balance over the terms to the nearest cent, halves going up |
| Amortization.ResidueExact | backend/app/payroll/services.py:375-393 | the unpaid residue is exactly max(0, balance - terms × payment), less than half a cent a term |
| Amortization.OneCentLeft | backend/app/payroll/services.py:375-393 | a residue really occurs |
| RefreshTokens.TokenTable.RotateRefreshToken | backend/app/auth/services.py:121-165 | the table and answer are those of the rotation function, on every branch |
| RefreshTokens.TokenTable.RevokeRefreshToken | backend/app/auth/services.py:168-185 | the same for logout |
| RefreshTokens.TokenTable.RevokeAllForUser | backend/app/auth/services.py:75-90 | the same for revoking a user's sessions, with the number that were active |
| RefreshTokens.ChainsOfARun | backend/app/auth/services.py:154-163 | in every run the links have no cycle, at most one descendant of a token is unrevoked, and chains of tokens no rotation produced are disjoint |
| RefreshTokens.LoginHeadsItsChain | backend/app/auth/services.py:40-72 | a login's token is never one that a rotation produced |
| RefreshTokens.RotateMeans | backend/app/auth/services.py:93-165 | each answer to a rotation has exactly its own condition on token, record and user; what it stores, whose sessions a reuse ends, and that other refusals write nothing |
| RefreshTokens.LogoutMeans | backend/app/auth/services.py:168-185 | a logout revokes the one token presented and no other, or ends the user's sessions, and says how many it ended |
| RefreshTokens.LoginMeans | backend/app/auth/services.py:40-72 | a login adds one session of its user and touches no other token |
| RefreshTokens.RunKeeps | backend/app/auth/services.py:75-90 | revocation and links are permanent over any run |
| RefreshTokens.RotationSwapsOne | backend/app/auth/services.py:150-163 | a rotation replaces exactly one active token by one new one and touches no other user |
| RefreshTokens.ReuseEndsEverySession | backend/app/auth/services.py:133-139 | presenting an unexpired revoked token leaves its user without an active token |
| RefreshTokens.OldTokenIsATripwire | backend/app/auth/services.py:133-163 | that holds for a rotated token whatever happened since the rotation |
| Rbac.PermissionTable.ApplyRolePermissions | backend/app/rbac/services.py:98-150 | the loops leave the rows that the list grants, drop the role's rows without a grant, and touch nothing else |
| Rbac.PermissionTable.ReadRolePermissions | backend/app/rbac/routes.py:89-98 | the nested loops list the rows' entries in module and column order |
| Rbac.PermissionTable.EffectivePermissions | backend/app/rbac/services.py:49-72 | the loop maps each module code with a row for the role to its actions |
| Rbac.ParseOfEntry | backend/app/rbac/services.py:111-117 | parsing a printed grant gives it back, even for a module code with dots |
| Rbac.ReadAfterApply | backend/app/rbac/services.py:98-150 | reading after applying any list gives exactly its valid entries, as a set |
| Rbac.ApplyWhatWasRead | backend/app/rbac/routes.py:93-98 | applying what was read changes nothing exactly when the role has no all-false row |
| Rbac.ApplyIsIdempotent | backend/app/rbac/services.py:98-150 | after one application, applying what is read or the list again is a fixed point, and other roles' rows are as they were |
| Rbac.CheckIsMembership | backend/app/rbac/services.py:34-46 | for a non-superuser the check is membership in what the role reads, on an active module |
| Rbac.CheckAfterApply | backend/app/rbac/services.py:34-46 | after a list is applied the check answers by the list alone |
| Rbac.CheckMeans | backend/app/rbac/services.py:34-46 | the whole check: a superuser may do everything, anyone else needs the column true for a role on an active module of the code |
| Rbac.PayloadMeans | backend/app/rbac/services.py:49-72 | the login payload lists, active or not, the role's row for the module of a code |

## Left out

- Requests with negative hours and policies with negative entitlements, which nothing rejects: the balance and sign theorems ask for non-negative ones; the disjointness, history, accrual-count and conservation theorems do not.
- Reject, cancel, enrollment, adjustment and the batch runs take no lock before they read: each is one atomic step, also in `LeaveSubmission` and `LeaveApproval`, where a decision on a request whose row is locked waits for it; an unlocked read that is stale by the time of the write is not modelled.
- Leave events: the audit rows are not modelled, and the accrual and carry-over events against a nil request id are taken to insert, so the integrity-error branch of carry-over is omitted.
- Deactivating or deleting enrollments and soft-deleting requests or ledger entries: no service does it, so all are active. Policy creation, editing and deactivation appear as arbitrary edits between calls.
- The carry-over expiry date: the run never passes a date, so it plays no part in the runs.
- LeaveLedger.PagesJoin: entries are ordered by a wall-clock time without a tie-break, so two queries may list entries of the same time differently, and pages of two such listings need not join; the proof is for one listing. A new entry between two queries also shifts the pages.
- LeaveCalc.WorkdaySet: the shift's day numbers arrive as integers; parsing them from text, and the error for text that is not a number, are not modelled.
- Editing a punch, and the computed minutes: `update_dtr` and the time calculation are not modelled; the protocol runs contain creates and deletes only. A collision on anything but the import-key index is not modelled.
- The database session's time zone is UTC, so a naive time is stored as the instant it is compared as.
- The limiter reads its clock before taking its lock: calls are atomic here with a clock that never runs backwards. Building the composite key is not modelled.
- The attendance block of payroll: its absences are a parameter, and overtime, contributions, tax and net pay are not modelled. Decimal context precision is not modelled: sums and quotients are exact until they are rounded.
- The loan lookup and the date type's upper bound on due dates.
- Token rotation's two commits, and hashing, signing and encryption: rotation is one atomic step, a signed token stands for its claims, and a record's expiry is the token's.
- HTTP, permissions on routes, notifications, reports, generic CRUD, migrations and the user interface.
