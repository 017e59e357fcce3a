# Gym CRM: a verified model of the backend

The backend of this gym CRM keeps coaches, schedules, subscriptions, check-ins and payments.  These modules model its five
cores and prove what they keep over every input and every run.

| module | core |
|---|---|
| `Calendar`, `Sums`, `Payroll` | coach pay: prorated salaries, clipped windows, breakdowns, splitting a query |
| `TimeZone`, `Schedule`, `ScheduleRuns`, `ScheduleEffects`, `ScheduleServices` | recurring templates, their session rows, owner edits, the nightly horizon job |
| `Subscriptions`, `SubscriptionRuns`, `SubscriptionEffects`, `SubscriptionServices` | the five-state lifecycle, plan changes, the member-status mirror, two nightly jobs |
| `Attendance` | quota windows, rule matching, check-ins, overrides, undo |
| `Payments` | the append-only ledger, refunds, the revenue summary |

How the model is laid out:

- A table is a sequence of rows; a row's id is its index, and an INSERT appends.  Days are ordinals (1 is 1 January of year 1),
  instants are microseconds in UTC, money is in cents.
- The services are classes whose methods follow the source statement by statement over tables held in fields.  Each method's
  contract gives the whole new state by a function on values (`Apply`, `Step`, `Extended`, `Rewritten`, ...), and the
  lemmas about runs are about those functions.  The lemmas named `...Effect`, `...Answers` and `...Accepted` say,
  without those functions, in the columns of the tables, what each command answers and what it writes.
- The CHECKs and UNIQUE indexes of the migrations are conditions on every write; a failed one aborts its transaction.
  PostgreSQL tests CHECKs before it looks for an `ON CONFLICT` target, and so does the model.
- Transactions run one at a time, each by itself.  `create_template` is two transactions and the nightly horizon job is one for
  each template it listed; a run may hold them whole, or one by one with other calls in between (`InsertTemplate`,
  `ExtendListed`).
- Clocks are parameters; a lemma about runs that depends on their order asks that they never go back.
- Where the database returns rows in no stated order, contracts hold for any order.
- A time zone is a base offset and any finite list of transitions more than two days apart, with offsets less than a day apart
  and every spring-forward gap, with what it lands on, inside one local day.

What the proofs show about the code itself:

- **A frozen subscription can be neither cancelled nor moved to another plan.**  `cancel` (`backend/app/adapters/storage/postgres/subscription/repositories.py:560-591`)
  and `mark_replaced_pending` (lines 476-517) leave `frozen_at` set, which `ck_subs_frozen_shape` forbids outside `frozen`, so
  the transaction aborts.  `docs/features/subscriptions.md:95-96` and `:165` promise both.  The model follows the code.
- The unique index on live subscriptions is needed for one case only: `renew` of an expired row whose member has a live one.
- Cancelling an expired subscription while the member has a live one is the only call that breaks the member-status mirror.
- A window's quota can be exceeded exactly by check-ins that straddle a reset: the service reads its own clock for the window,
  the database stamps the row with its own.  A quota that never resets counts nothing before the subscription's start date.
- A plan without entitlements covers nothing (`backend/app/services/attendance_service.py:479-482`), although the plan entity
  says it is unlimited (`backend/app/domain/entities/membership_plan.py:119-121`).  The model follows the service.
- An edit to a valid template is rolled back exactly when a row that it leaves alone, customised, cancelled or past, already
  holds a start it needs, when two of the rows it rewrites share a local date, or when a spring-forward swallows a session it
  would move or insert.
- A coach swap asks only that a current pay link overlaps the range, where its documentation asks for one that covers it
  (`backend/app/services/schedule_service.py:467-473`).  The days without a link then get none, and payroll pays nothing for
  their sessions.  The model follows the code.
- A nightly extension works on the template as it was listed.  When the owner edits the template in between, the job can put
  rows at the old hours, with the old coaches, beside the edited ones of the same dates.  While two such rows are ahead, every
  further edit of that template is rolled back, even one that changes only its coach.  Without an edit in between, future rows
  always agree with their template and no date is shared.
- A swap over a past range that needed a temporary pay link cannot be repeated: the old link is no longer current, and a second
  one would have the same role.

## Model

| member | source | states |
|---|---|---|
| Calendar.FormulaCountsMonths | backend/app/services/coach_service.py:636-644 | the closed day formula behind date subtraction equals counting month lengths one by one, for every month before and after year 1 |
| Calendar.MonthOf | backend/app/services/coach_service.py:636-646 | the month found by searching is the one whose first day is at or before the day and whose successor starts after it |
| Calendar.MonthOfUnique | backend/app/services/coach_service.py:636-646 | no other month contains the day |
| Calendar.FromOrdinalInverts | backend/app/services/coach_service.py:636-646 | dates and day numbers are in bijection: from a valid date to its ordinal and back is the identity |
| Calendar.AtMostIsOrdinalOrder | backend/app/services/coach_service.py:633-646 | comparing dates field by field, as the loop condition does, is comparing their day numbers |
| Calendar.WeekdayIsOrdinalMod7 | backend/app/domain/entities/class_coach.py:46-53 | `weekday_code`, with its shift from Monday-first to Sunday-first, depends on the day number modulo 7 alone |
| Payroll.RoundHalfEven | backend/app/services/coach_service.py:645 | within half a unit of the exact amount, and even on an exact tie |
| Payroll.HalfEvenIsUnique | backend/app/services/coach_service.py:645 | those two conditions leave one integer, so every statement below pins the cents exactly |
| Payroll.FirstOfNextMonth | backend/app/services/coach_service.py:648-651 | a valid date, day 1, exactly one month on, December included: what makes the walk terminate |
| Payroll.FixedProrated | backend/app/services/coach_service.py:615-645 | the month walk with its clipped overlaps and single final rounding pays the half-even rounding of the per-day sum of monthly pay over days in that month; the overlap days it pays for add up to the length of the span; an inverted span pays zero; the walk terminates |
| Payroll.AccrualInMonth | backend/app/services/coach_service.py:636-644 | inside one calendar month the per-day sum equals `monthly * overlap_days / days_in_month` |
| Payroll.WholeMonthsPayExactly | backend/app/services/coach_service.py:615-645 | n whole calendar months pay exactly n salaries, whatever their lengths |
| Payroll.AdjacentSpansWithinOneCent | backend/app/services/coach_service.py:615-645 | two adjacent spans differ from their union by at most one cent |
| Payroll.OverlapsCoverSpan | backend/app/services/coach_service.py:636-644 | the days of a span that fall in each month, which the walk computes as `overlap_days`, add up to the length of the span |
| Payroll.PayForLink | backend/app/services/coach_service.py:510-561 | cents and units of one link under each pay model, the schedule flag included, as counts of distinct rows or distinct days in a half-open UTC range |
| Payroll.EarningsFor | backend/app/services/coach_service.py:391-487 | rejects exactly the inverted range; otherwise the accumulated total is the sum over all links of their clipped pay, the rows are one for each link with a non-empty clipped span, and the two maps are the group sums of those rows |
| Payroll.RowsAddUp | backend/app/services/coach_service.py:438-476 | the rows of a breakdown add up to its total |
| Payroll.BreakdownConserves | backend/app/services/coach_service.py:428-476 | the by-class map and the by-pay-model map each add up to the rows |
| Payroll.ClassTotalIsItsRows | backend/app/services/coach_service.py:448-452 | a class has an entry exactly when it has a row, and its entry is the sum of its own rows |
| Payroll.PaidSpanInsideLifetime | backend/app/services/coach_service.py:658-680 | a day is counted for a link if and only if it lies in the query, at or after hiring, at or before cancellation, strictly before a freeze, and inside the link |
| Payroll.WindowExactly | backend/app/services/coach_service.py:658-680 | the effective window, when there is one, holds exactly the days of the query and of the lifetime |
| Payroll.RowsAreLinks | backend/app/services/coach_service.py:436-476 | one row for each link with a day to pay, with the class, role, model, amount, cents and units of its link |
| Payroll.ModelTotalIsItsRows | backend/app/services/coach_service.py:448-452 | a pay model has an entry exactly when it has a row, and its entry is the sum of its own rows |
| Payroll.EntryAddsPay | backend/app/services/coach_service.py:527-560 | one more check-in adds the amount of a PER_ATTENDANCE link if and only if it is effective, of the coach and class, and its UTC day lies in the query, the lifetime and the link; of a PER_SESSION link without the schedule if and only if it is also the first such on its day; and otherwise nothing |
| Payroll.SessionAddsPay | backend/app/services/coach_service.py:531-541 | one more session adds the amount of a PER_SESSION link with the schedule on if and only if it is held, of the coach and class, on a paid day; and otherwise nothing |
| Payroll.EmptyBooksPay | backend/app/services/coach_service.py:510-561 | with nothing in the books only FIXED links pay |
| Payroll.UnitsExactly | backend/app/services/coach_service.py:521-525 | a FIXED link counts the days of its span, any other as many units as it pays amounts |
| Payroll.NoWindowNoPay | backend/app/services/coach_service.py:411-426 | outside the lifetime every link pays nothing, so the early return with zero is the same sum |
| Payroll.UnitsSplit | backend/app/services/coach_service.py:527-560 | half-open day ranges count no row, and no day, on both sides of a boundary |
| Payroll.DaysSplit | backend/app/adapters/storage/postgres/class_entry/repositories.py:255-283 | distinct attended days split exactly at a day boundary |
| Payroll.LinkSplit | backend/app/services/coach_service.py:438-446 | one link, split at any day: at most one cent for a FIXED link paid on both sides, otherwise nothing, through lifetime and link clipping |
| Payroll.SplitQuery | backend/app/services/coach_service.py:391-561 | splitting a query at any day boundary moves the coach's total by at most one cent for each FIXED link paid in both halves, and by nothing for the other pay models |
| Sums.GroupSumConserves | backend/app/services/coach_service.py:431-452 | accumulating rows in a `defaultdict(int)` neither loses nor invents an amount |
| Sums.GroupSumAt | backend/app/services/coach_service.py:431-452 | a key is present exactly when some row has it, and its value is the sum of those rows |
| TimeZone.WallRoundTrip | backend/app/services/schedule_materialize.py:57-73 | wall clock to UTC (`fold=0`) and back gives the same reading, or, for a reading in a spring-forward gap, the reading moved on by the size of the gap |
| TimeZone.KeptOutsideGaps | backend/app/services/schedule_materialize.py:57-73 | a wall reading outside every gap comes back unchanged: sessions start and end at the hours of their template |
| TimeZone.FirstOfTwo | backend/app/services/schedule_materialize.py:57-73 | a wall reading that comes twice means its first time |
| TimeZone.DateRoundTrip | backend/app/services/schedule_materialize.py:57-73 | turning a session date and time into UTC and back gives the same local date, in any zone whose gaps are clear of midnight |
| TimeZone.LaterDatesStartLater | backend/app/services/schedule_materialize.py:57-73 | the same time of day on a later date is a strictly later instant |
| TimeZone.EndAfterStart | backend/app/services/schedule_materialize.py:57-73 | a session ends after it starts if and only if no spring-forward gap holds its start, ends by its end, and is at least as long as it |
| TimeZone.SwallowedSession | backend/migrations/versions/0012_create_schedule_and_feature_flags.py:250 | a concrete night on which a valid template gives an end five minutes before its start |
| Schedule.MaterializeDates | backend/app/services/schedule_materialize.py:24-54 | early returns, clipping and cursor walk together return the covered dates of the whole range |
| Schedule.CoveredExactly | backend/app/services/schedule_materialize.py:24-54 | the result holds exactly the dates of the range that the template covers, strictly increasing |
| Schedule.CoveredConcatenates | backend/app/services/schedule_materialize.py:24-54 | adjacent ranges concatenate to the whole |
| Schedule.WholeWeeks | backend/app/services/schedule_materialize.py:24-54 | any n whole weeks inside an active template's dates hold exactly n times the number of its weekdays |
| Schedule.StartsOnItsDate | backend/app/services/schedule_materialize.py:57-73 | the start of a template's session on a date has that local date |
| Schedule.StartsGrow | backend/app/services/schedule_materialize.py:57-73 | starts of one template are ordered as their dates are, so its dates never share a key |
| Schedule.NewRowsFacts | backend/app/adapters/storage/postgres/class_session/repositories.py:93-132 | `ON CONFLICT DO NOTHING`: the inserted rows are exactly the template rows of the dates whose key is missing |
| Schedule.NewRowsKeepValid | backend/migrations/versions/0012_create_schedule_and_feature_flags.py:250-286 | the inserted rows break neither the CHECKs nor the unique key, among themselves or with the rest |
| Schedule.ExtensionTakesEveryKey | backend/app/services/schedule_service.py:630-655 | after an extension every covered date has its key |
| Schedule.NothingNew | backend/app/services/schedule_service.py:630-655 | where every key is taken nothing is inserted |
| ScheduleRuns.ExtensionIsExact | backend/app/services/schedule_service.py:630-655 | an extension keeps all rows as they were, adds exactly one row for each covered date of the horizon whose key is missing, and does nothing when repeated that day |
| ScheduleRuns.ExtensionFailsOnlyInGaps | backend/app/services/schedule_service.py:630-655 | an extension is aborted by the table if and only if a spring-forward swallows one of its sessions |
| ScheduleRuns.StepKeepsValid | backend/app/services/schedule_service.py:102-655 | every command and the nightly job keep template shapes, foreign keys, CHECKs and the unique key |
| ScheduleRuns.RewriteMatches | backend/app/services/schedule_service.py:666-676 | a rewritten row has the start, end and coaches of the edited template for its local date, and keeps that date |
| ScheduleRuns.RewrittenAgrees | backend/app/services/schedule_service.py:657-676 | after the rewrite every future scheduled non-customised row of the edited template agrees with it and other templates still agree with theirs |
| ScheduleRuns.ListedExtensionAgreesExactly | backend/app/services/schedule_service.py:623-655 | an extension from a copy of the template read earlier keeps the rows in agreement if and only if, on every date for which it would insert a row ahead of now, the template still has the start, end and coaches of the copy |
| ScheduleRuns.StepAgrees | backend/app/services/schedule_service.py:102-679 | each command, and a whole nightly job, keeps that agreement |
| ScheduleRuns.StepAgreesExactly | backend/app/services/schedule_service.py:623-679 | a call, single transactions of a creation or a nightly job included, keeps that agreement if and only if it is not a stale extension |
| ScheduleRuns.FutureRowsAgreeExactly | backend/app/services/schedule_service.py:623-679 | over every run under a clock that never goes back, with other calls between the transactions of a creation or a nightly job, the tables are valid, and each future scheduled non-customised row agrees with its template after every call if and only if no extension is stale |
| ScheduleRuns.FutureRowsAgree | backend/app/services/schedule_service.py:623-679 | in every state reached without an edit between a listing and its extension, each future scheduled non-customised row has exactly the start, end and coaches its template gives for the row's local date, and the tables are valid |
| ScheduleRuns.InterruptedJobDisagrees | backend/app/workers/schedule_tasks.py:52-68 | a run from the empty tables, create, list, edit, extend, that ends with a governed row where its template no longer is |
| ScheduleRuns.InterruptedJobBlocksEdits | backend/app/services/schedule_service.py:657-676 | after that run no edit of the template commits, whatever it changes |
| ScheduleRuns.JobIsItsTransactions | backend/app/workers/schedule_tasks.py:52-68 | a nightly job that nothing interrupts is its transactions, one for each listed template |
| ScheduleRuns.CreationIsItsTransactions | backend/app/services/schedule_service.py:124-156 | a creation that nothing interrupts is the insertion of the template and one extension |
| ScheduleRuns.TemplateCallKeepsProtected | backend/app/services/schedule_service.py:222-261 | one template command or nightly run changes no field of a customised, cancelled or past row |
| ScheduleRuns.ProtectedRowsNeverChange | backend/app/services/schedule_service.py:185-261 | the same over any run of template creations, edits, deactivations, reactivations and nightly runs |
| ScheduleRuns.CancelledRowsNeverChange | backend/app/services/schedule_service.py:102-655 | over any run of any calls no field of a cancelled row changes |
| ScheduleRuns.DeactivatedRowsAreNotRecreated | backend/app/services/schedule_service.py:222-261 | a row cancelled by a deactivation stays as it is and keeps its key to itself over any run of any later calls, reactivation and owner edits included |
| ScheduleRuns.DroppedWeekdaysStay | backend/app/services/schedule_service.py:657-679 | an edit that drops a weekday leaves its future rows scheduled, on the same local dates |
| ScheduleRuns.EditAbortsOnTakenStart | backend/migrations/versions/0012_create_schedule_and_feature_flags.py:278-286 | an edit is rolled back when another row of the template, customised, cancelled or past, already holds the start that a rewritten row would get |
| ScheduleRuns.TargetsCollideExactly | backend/app/services/schedule_service.py:666-676 | two rewritten rows of a template get the same start if and only if they stand on the same local date |
| ScheduleRuns.TargetsStayApart | backend/app/services/schedule_service.py:666-676 | rows that agree with their template never share a date |
| ScheduleRuns.RewriteValidExactly | backend/app/services/schedule_service.py:666-676 | the rewrite keeps any valid table valid if and only if no untouched row holds a needed start, no two rewritten rows share a date, and no spring-forward swallows a rewritten session on its own date |
| ScheduleRuns.EditCommitsExactly | backend/app/services/schedule_service.py:185-220 | from any valid tables an edit commits if and only if the template exists, its new shape is valid, no untouched row holds a start it needs, no two rewritten rows share a date, and no spring-forward swallows a session it would move or insert |
| ScheduleRuns.AgreeingEditCommitsExactly | backend/app/services/schedule_service.py:185-220 | where rows agree with their templates no date is shared, and the other conditions decide |
| ScheduleRuns.SharedDateBlocksEdits | backend/app/services/schedule_service.py:657-676 | while two future scheduled non-customised rows of a template share a date, every edit of it is rolled back |
| ScheduleRuns.EditAfterMoveAborts | backend/app/services/schedule_service.py:657-679 | a run from the empty tables, create, move the row by hand, nightly job, after which an edit to the hour of the moved row aborts |
| ScheduleRuns.EditIntoGapAborts | backend/app/services/schedule_service.py:657-679 | a run from the empty tables after which an edit to hours that a spring-forward swallows aborts |
| ScheduleRuns.NewRowsOwn | backend/app/services/schedule_service.py:630-655 | what a template inserts depends on that template's rows alone |
| ScheduleRuns.NightlyIsIsolated | backend/app/workers/schedule_tasks.py:44-85 | in the nightly loop each template's rows end as if it had been extended alone from the rows at the start; other templates, their failures and the order do not matter |
| ScheduleRuns.NightlyIsIdempotent | backend/app/workers/schedule_tasks.py:44-85 | a second nightly run on the same day inserts nothing, whichever templates fail and in whatever order it lists them |
| ScheduleEffects.ExtensionEffect | backend/app/services/schedule_service.py:630-655 | an extension keeps every row; each row it adds is a session of the template, its class, hours, coaches, scheduled and untouched, on a date of the eight weeks that it runs on, whose start no row held; and afterwards every such start is held |
| ScheduleEffects.ExtendedUnlessSwallowed | backend/app/services/schedule_service.py:630-655 | it fails if and only if a spring-forward swallows a session of the eight weeks |
| ScheduleEffects.CreationEffect | backend/app/services/schedule_service.py:102-162 | the template is stored as given, with its sessions, or without any when one of them is swallowed |
| ScheduleEffects.ListedExtensionEffect | backend/app/services/schedule_service.py:623-628 | the same for one transaction of the nightly job, from the template as listed; templates stay as they are |
| ScheduleEffects.EditEffect | backend/app/services/schedule_service.py:185-220 | after a committed edit the template is the edited one with its class as it was; each future scheduled non-customised row has its hours and coaches on its own date and no other old row is changed; and the dates it adds have their sessions |
| ScheduleEffects.DeactivationEffect | backend/app/services/schedule_service.py:222-261 | switches the template off, cancels exactly its future scheduled non-customised rows with time and reason, and changes nothing else; refused exactly for an unknown template |
| ScheduleEffects.InactiveInsertsNothing | backend/app/services/schedule_materialize.py:24-54 | no extension of a template that is off inserts a row |
| ScheduleEffects.NightEffect | backend/app/workers/schedule_tasks.py:44-85 | a whole nightly job keeps all templates and rows, adds only sessions of active templates, and leaves every active template that loses none to a spring-forward with all its sessions of the eight weeks |
| ScheduleEffects.AdhocEffect | backend/app/services/schedule_service.py:265-309 | accepted exactly when it ends after it starts, and stored as given, customised, without a template |
| ScheduleEffects.SessionEditAccepted | backend/app/services/schedule_service.py:344-409 | accepted exactly for a scheduled row that still ends after it starts and shares its start with no other row of its template |
| ScheduleEffects.SessionEditEffect | backend/app/services/schedule_service.py:344-409 | changes exactly the columns asked for, and marks the row customised when something was asked |
| ScheduleEffects.SessionCancelEffect | backend/app/services/schedule_service.py:411-446 | accepted exactly for a scheduled row; writes status, time, reason and the customised mark, and nothing else |
| ScheduleEffects.BulkEffect | backend/app/services/schedule_service.py:450-603 | accepts ranges of at most 366 days beyond the first; changes exactly the scheduled rows of the class that start on its UTC days, to cancelled or to the new head coach, and to customised |
| ScheduleServices.ScheduleService.ListForTemplateFuture | backend/app/adapters/storage/postgres/class_session/repositories.py:226-237 | exactly the template's rows from `now` on, each once |
| ScheduleServices.ScheduleService.MaterializeHorizon | backend/app/services/schedule_service.py:630-655 | from the caller's copy of the template the row-by-row loop inserts all missing rows or none, and returns how many |
| ScheduleServices.ScheduleService.ExtendHorizonForTemplate | backend/app/services/schedule_service.py:623-628 | one transaction of the nightly job, for a template as it was listed: its rows or none, and how many |
| ScheduleServices.ScheduleService.RewriteFuture | backend/app/services/schedule_service.py:657-676 | the UPDATE loop, checked against the constraints after each row, is accepted exactly when the finished rewrite is valid, and then gives it, in whatever order the rows come |
| ScheduleServices.ScheduleService.CreateTemplate | backend/app/services/schedule_service.py:102-162 | answers with the new id exactly when the shape is valid and all its rows can be inserted; the template commits first and stays when they cannot; an invalid shape changes nothing |
| ScheduleServices.ScheduleService.UpdateTemplate | backend/app/services/schedule_service.py:185-220 | template row, rewrite and extension take effect together or not at all, with the columns that an edit promises; the class cannot be changed |
| ScheduleServices.ScheduleService.DeactivateTemplate | backend/app/services/schedule_service.py:222-261 | cancels exactly the future scheduled non-customised rows, with time and reason, and leaves every other row as it was |
| ScheduleServices.ScheduleService.CreateAdhocSession | backend/app/services/schedule_service.py:265-309 | adds one customised row without a template, exactly when it ends after it starts |
| ScheduleServices.ScheduleService.UpdateSession | backend/app/services/schedule_service.py:344-409 | accepted exactly for a scheduled row whose edited form is valid; sets only the given fields and freezes the row; an empty edit does not freeze it |
| ScheduleServices.ScheduleService.CancelSession | backend/app/services/schedule_service.py:411-446 | cancels and freezes a scheduled row, and refuses any other |
| ScheduleServices.ScheduleService.BulkAction | backend/app/services/schedule_service.py:450-603 | acts on exactly the scheduled rows of the class in the date range, freezes them and reports their ids; refuses exactly an inverted range, one of more than 366 days, and a swap to a coach who neither has a rate nor gets one; a refusal changes neither sessions nor pay links |
| ScheduleServices.ScheduleService.LinkSubstitute | backend/app/services/schedule_service.py:490-533 | a temporary pay link for the range is added exactly when the new coach has no current link that overlaps it, pay is given and the role is free; one link per class, coach and role is kept |
| ScheduleServices.LinksEffect | backend/app/services/schedule_service.py:490-533 | the pay links after a bulk action, column by column: when a rate exists, when the swap is refused, and class, role, model, amount and days of the link it adds |
| ScheduleServices.QueryFindsSwapped | backend/app/adapters/storage/postgres/class_session/repositories.py:251-272 | the count query, asked for the new coach and the whole range, finds exactly the sessions a swap acted on |
| ScheduleServices.LinkedDaysExactly | backend/app/services/schedule_service.py:495-533 | a day of an accepted swap has a pay link afterwards if and only if it had one before or no current link of the coach touched the range at all |
| ScheduleServices.PaidSessionsArePaid | backend/app/services/coach_service.py:436-446 | with the schedule on, what a query pays for a link by the session is its amount for each session of the link, clipped to the coach's lifetime and to the link |
| ScheduleServices.SwappedSessionsAreCounted | backend/app/services/coach_service.py:411-446 | with the schedule on, payroll pays a swapped session for one of the new coach's links if and only if the coach is employed on the session's UTC day and a link paid by the session is in force on it; with it off, for none |
| ScheduleServices.RepeatedSwapExactly | backend/app/services/schedule_service.py:495-533 | asking again for a swap that added a link is accepted, without a second link, if and only if the range is not over |
| ScheduleServices.PastSwapCannotBeRepeated | backend/app/services/schedule_service.py:495-533 | a concrete past range: the swap is accepted once, with a temporary link, and refused the second time |
| ScheduleServices.RateOnOneDayIsEnough | backend/app/services/schedule_service.py:495-505 | a concrete swap of days 10 to 20 on the strength of a link for day 10: it needs no pay, hands over a session of day 15, and payroll pays nothing for it |
| ScheduleServices.ScheduleService.ListAllActive | backend/app/adapters/storage/postgres/class_schedule_template/repositories.py:104-110 | every active template once |
| ScheduleServices.ScheduleService.RunExtendHorizon | backend/app/workers/schedule_tasks.py:44-85 | the loop with its per-template commit or rollback gives the isolated nightly effect, and its three counters are the templates listed, the rows added and the templates that failed |
| ScheduleServices.FailuresAreSwallowed | backend/app/workers/schedule_tasks.py:44-85 | the error count is the number of listed templates that lose a session to a spring-forward |
| ScheduleServices.MovedRowCollides | backend/app/services/schedule_service.py:666-676 | a row rejected halfway through the rewrite is rejected whatever the order: the finished rewrite breaks the same constraint |
| ScheduleServices.UpdateValidExactly | backend/migrations/versions/0012_create_schedule_and_feature_flags.py:250-286 | an UPDATE keeps the table valid if and only if the row passes its CHECKs and no other row has its key |
| ScheduleServices.EarlierRowsDoNotTakeKey | backend/app/services/schedule_service.py:637-648 | rows inserted earlier in the same loop never take the key of a later date |
| SubscriptionRuns.StepKeepsInv | backend/app/services/subscription_service.py:99-472 | every command and both nightly jobs keep foreign keys, row CHECKs, at most one active or frozen row per member, and a chain in which each replaced row forwards to a later row of the same member and no two to the same one |
| SubscriptionRuns.ReplaceOutcome | backend/app/services/subscription_service.py:273-353 | past the guards a plan change commits exactly from `active`, and then retires the row, inserts the successor with the new price and expiry and links them |
| SubscriptionRuns.ConstraintsFireExactly | backend/migrations/versions/0008_create_subscriptions.py:125-164 | from any committed state, the exact call and row for which each database constraint aborts: the unique index only for renewing an expired row behind a live one, the frozen shape only for a plan change or cancellation of a frozen row, the freeze order only for a freeze that ends before today, the others never |
| SubscriptionRuns.FrozenRowsAreStuck | backend/app/services/subscription_service.py:273-379 | an allowed plan change or cancellation commits if and only if the row is not frozen |
| SubscriptionRuns.FrozenSubscriptionCannotBeCancelled | backend/app/services/subscription_service.py:355-379 | a reachable example: enroll, freeze, cancel aborts |
| SubscriptionRuns.Run | backend/app/services/subscription_service.py:99-472 | every state reachable from a sound one is sound |
| SubscriptionRuns.Follow | backend/app/services/subscription_service.py:273-353 | following the replacement links from any row terminates at a row of the same member that is not replaced |
| SubscriptionRuns.FollowAfterChange | backend/app/services/subscription_service.py:273-353 | a plan change redirects exactly the chains that ended at the changed row, to the new one |
| SubscriptionRuns.RenewBehindLiveAborts | backend/app/services/subscription_service.py:233-271 | a reachable example: enroll, expire, enroll again, renew the first; the unique index aborts it |
| SubscriptionRuns.StepMirrors | backend/app/services/subscription_service.py:501-507 | one call keeps the member's status matching the live subscription if and only if it does not cancel an expired row behind a live one |
| SubscriptionRuns.CancelBehindLiveBreaksMirror | backend/app/services/subscription_service.py:355-379 | a reachable example: enroll, expire, enroll again, cancel the first; the member is cancelled with an active subscription |
| SubscriptionRuns.RunMirrors | backend/app/services/subscription_service.py:501-507 | over every run without such a cancellation, a member with a live subscription has the matching status |
| SubscriptionRuns.RunMirrorsExactly | backend/app/services/subscription_service.py:501-507 | over every run the mirror holds in every state if and only if no call cancels an expired row behind a live one |
| SubscriptionRuns.NightLeavesNothingDue | backend/app/services/subscription_service.py:440-472 | after auto-unfreeze then auto-expire no frozen row has a freeze that ends today or earlier and no active row an expiry before today, and a second night changes nothing |
| SubscriptionRuns.UnfrozenIsNotExpired | backend/app/services/subscription_service.py:440-472 | the night that unfreezes a subscription leaves it active, and expires it if and only if it was past due already when frozen |
| SubscriptionRuns.StepKeepsPaidTime | backend/app/services/subscription_service.py:547-554 | apart from its own renewal, one call changes no remaining paid day of a row that stays live, and never revives a dead one |
| SubscriptionRuns.PaidTimeIsConserved | backend/app/services/subscription_service.py:547-554 | over any run without renewal of the row, its remaining paid days shrink by exactly the days it was active |
| SubscriptionRuns.LiveDaysAddUp | backend/app/services/subscription_service.py:168-214 | active and frozen days add up to the length of the run |
| SubscriptionRuns.ExpiryMovesByFrozenDays | backend/app/services/subscription_service.py:547-554 | over any run of manual and automatic freezes and unfreezes from active to active, `expires_at` moves by exactly the total number of frozen days |
| SubscriptionRuns.DefaultRenewalAddsTime | backend/app/services/subscription_service.py:528-545 | a default renewal ends after today, and for an active row after its present expiry, so it never leaves the row due to expire |
| SubscriptionEffects.CreateAnswers | backend/app/services/subscription_service.py:99-166 | which refusal comes when: no plan, inactive plan, no member, a live subscription; accepted exactly otherwise |
| SubscriptionEffects.CreateEffect | backend/app/services/subscription_service.py:99-166 | one active row with the plan's price, the given start or today, the given expiry or a one-time plan's duration; the member becomes active |
| SubscriptionEffects.RowAnswers | backend/app/services/subscription_service.py:168-379 | for each command on a row, when it is refused as unknown, as an illegal transition, and for a plan change as the same plan, no plan or an inactive plan |
| SubscriptionEffects.FreezeEffect | backend/app/services/subscription_service.py:168-188 | commits exactly from active and not to a day before today; writes status, first and last day of the freeze |
| SubscriptionEffects.UnfreezeEffect | backend/app/services/subscription_service.py:190-214 | commits exactly from frozen; clears the freeze and moves the expiry on by the days since it began |
| SubscriptionEffects.RenewEffect | backend/app/services/subscription_service.py:216-271 | commits exactly from active, and from expired without another live row; the expiry is the given one, or today or the later present expiry plus the duration of the plan, or 30, 90 or 365 days |
| SubscriptionEffects.ChangePlanEffect | backend/app/services/subscription_service.py:273-353 | commits exactly from active, to another active plan; retires the row as of the effective day, forwards it to the new last row, and writes that row with the new price and expiry |
| SubscriptionEffects.CancelEffect | backend/app/services/subscription_service.py:355-379 | commits exactly from active or expired; writes status and day, and the member |
| SubscriptionEffects.AutoUnfreezeEffect | backend/app/services/subscription_service.py:440-459 | changes exactly the frozen rows whose freeze ends today or earlier, and their members |
| SubscriptionEffects.AutoExpireEffect | backend/app/services/subscription_service.py:461-472 | changes exactly the active rows whose expiry lies before today, and their members |
| SubscriptionServices.SubscriptionService.Transition | backend/app/services/subscription_service.py:476-507 | a row update and its member's status are written together, or neither when a constraint fails |
| SubscriptionServices.SubscriptionService.HasLive | backend/app/adapters/storage/postgres/subscription/repositories.py:230-250 | true exactly when some row of the member is active or frozen |
| SubscriptionServices.SubscriptionService.Create | backend/app/services/subscription_service.py:99-166 | guards in order, expiry resolution and insertion; answers exactly as specified and keeps the invariant |
| SubscriptionServices.SubscriptionService.Freeze | backend/app/services/subscription_service.py:168-188 | the frozen row and mirror, or the refusal or constraint that stops it |
| SubscriptionServices.SubscriptionService.Unfreeze | backend/app/services/subscription_service.py:190-214 | the active row with its expiry moved by the frozen days |
| SubscriptionServices.SubscriptionService.Renew | backend/app/services/subscription_service.py:216-271 | the renewed row with the explicit or default expiry, or the unique index that stops it |
| SubscriptionServices.SubscriptionService.ChangePlan | backend/app/services/subscription_service.py:273-353 | retire, insert and link with the constraints after each write; any failure restores the table |
| SubscriptionServices.SubscriptionService.Cancel | backend/app/services/subscription_service.py:355-379 | the cancelled row and mirror, or the constraint that stops it |
| SubscriptionServices.SubscriptionService.FindDue | backend/app/adapters/storage/postgres/subscription/repositories.py:263-290 | exactly the due rows, each once |
| SubscriptionServices.SubscriptionService.AutoUnfreezeDue | backend/app/services/subscription_service.py:440-459 | the loop unfreezes the rows whose freeze ends today or earlier and their members, in any order, with no write rejected, and returns their number |
| SubscriptionServices.SubscriptionService.AutoExpireDue | backend/app/services/subscription_service.py:461-472 | the loop expires the active rows whose expiry lies before today and their members, in any order, with no write rejected, and returns their number |
| SubscriptionServices.UnfreezeIsAccepted | backend/app/services/subscription_service.py:447-457 | in the middle of the job, unfreezing the next due row never makes a second live row |
| Attendance.WindowsPartitionTime | backend/app/services/attendance_service.py:600-639 | weekly, monthly and billing-period windows partition time, before the subscription starts too: an instant lies in its window, and has the same window start as another exactly when it lies in that window |
| Attendance.WindowStartLaws | backend/app/services/attendance_service.py:600-639 | window starts are idempotent and monotone, and the next window starts exactly 7 days, one calendar month or one billing period on |
| Attendance.WindowAnchors | backend/app/services/attendance_service.py:600-639 | windows start at midnight UTC, on Sundays, on the first of the month, a whole number of 30, 90 or 365 days from the subscription's start, or at that start |
| Attendance.First | backend/app/services/attendance_service.py:582-597 | the first rule for exactly this class reference |
| Attendance.Match | backend/app/services/attendance_service.py:582-597 | an exact rule wins over the wildcard, the first of its kind over the others; none exactly when neither exists |
| Attendance.RecordEffect | backend/app/services/attendance_service.py:132-206 | a check-in is recorded if and only if the member has a live subscription and an override is given, the matched rule is unlimited, or fewer effective entries than its quantity count since the window start; the entry says whether it was overridden and why; a refusal says how much was used of how much, or that no rule matches |
| Attendance.AttendanceService.RecordEntry | backend/app/services/attendance_service.py:132-206 | answers and writes exactly so |
| Attendance.QuotaCheckFigures | backend/app/services/attendance_service.py:485-520 | what a quota check reports as used, quantity and remaining |
| Attendance.UndoEffect | backend/app/services/attendance_service.py:287-329 | an undo is accepted if and only if the entry exists, was not undone and was made at most 24 hours ago; it marks that entry and changes nothing else |
| Attendance.AttendanceService.UndoEntry | backend/app/services/attendance_service.py:287-329 | answers and writes exactly so |
| Attendance.StepCount | backend/app/services/attendance_service.py:132-206 | one call adds exactly one to a group of entries that used a rule without override when it is a check-in of that group which finds room, and never adds otherwise |
| Attendance.StepKeepsQuotaExactly | backend/app/services/attendance_service.py:471-520 | one call takes a count that is within the quantity past it if and only if it is let through while its row belongs to a group that fills the quantity already |
| Attendance.QuotaHoldsExactly | backend/app/services/attendance_service.py:471-520 | over every run of check-ins, overrides and undos, the effective entries recorded without override against one rule, in one window or in any other group, stay within the quantity throughout if and only if no call slips |
| Attendance.SlipsOnlyAcrossReset | backend/app/services/attendance_service.py:493-507 | what slips past a window is stamped in it and checked after its reset |
| Attendance.QuotaHolds | backend/app/services/attendance_service.py:471-520 | when no check-in of the run straddles a reset, the effective entries recorded without override against one metered rule in one window never exceed its quantity, a wildcard rule counted over all classes, those with a rule of their own included |
| Attendance.OverrunExactly | backend/app/services/attendance_service.py:493-507 | a check-in slips past the quota of its window after some run whose clocks never go back if and only if a reset lies after its stamp and at or before its check |
| Attendance.OverrunBounded | backend/app/services/attendance_service.py:471-520 | over every run a window's quota is exceeded by at most the check-ins that were let through, are stamped in that window and were checked after its reset |
| Attendance.ResetWindowsCountAll | backend/app/services/attendance_service.py:471-520 | for rules that reset, the count covers every such entry whose stamp has that window start |
| Attendance.StraddlingCheckInSlipsThrough | backend/app/adapters/storage/postgres/class_entry/repositories.py:62-95 | a concrete run in which a row stamped by the database just before a reset exceeds the quota that the service checked just after it |
| Attendance.NeverQuotaHoldsFromStart | backend/app/services/attendance_service.py:631-633 | under a rule that never resets, entries stamped at or after the subscription's start never exceed the quantity, over every run |
| Attendance.NeverSlipsOnlyPastEarlyEntries | backend/app/services/attendance_service.py:631-633 | a check-in slips past the quantity of all time only behind an entry stamped before the start |
| Attendance.NeverQuotaHolds | backend/app/services/attendance_service.py:631-633 | when no check-in of the run against such a rule is stamped before the start, the quantity of all time is never exceeded |
| Attendance.NeverQuotaIgnoresEarlyEntries | backend/app/services/attendance_service.py:631-633 | while all entries of the member are stamped before the start, one more such check-in is accepted without override |
| Attendance.NeverQuotaIgnoresEarlyCheckIns | backend/app/services/attendance_service.py:631-633 | any number of check-ins before the start are let through and count on the rule |
| Attendance.NeverOverrunAlways | backend/app/services/attendance_service.py:631-633 | every check-in against such a rule slips past the quantity of all time after some run whose clocks never go back |
| Attendance.EarlyCheckInsSlipThrough | backend/app/services/attendance_service.py:631-633 | a concrete run: two check-ins on a pass for one, the day before it starts |
| Attendance.NoEntitlementsCoverNothing | backend/app/services/attendance_service.py:479-482 | a check answers `not_covered` exactly when no rule names the class or is a wildcard, so a plan without entitlements covers nothing |
| Attendance.UndoRestoresQuota | backend/app/services/attendance_service.py:287-329 | undoing a check-in makes every quota check answer as it did before the check-in |
| Payments.RecordEffect | backend/app/services/payment_service.py:120-194 | which refusal comes when, the 30 days of back-dating included; otherwise one row with member, subscription, amount, method and day as given |
| Payments.PaymentService.Record | backend/app/services/payment_service.py:120-194 | answers and appends exactly so |
| Payments.RefundEffect | backend/app/services/payment_service.py:198-285 | an accepted refund appends one row of minus the amount asked for, or of all that is left, for the same member, subscription and method, dated today; exactly that much less is left of the original |
| Payments.RefundRefusals | backend/app/services/payment_service.py:198-285 | which refusal comes when; everything else is accepted |
| Payments.TwoRefunds | backend/app/services/payment_service.py:198-285 | two accepted refunds of n and of m leave the amount less n and m of an untouched payment |
| Payments.PaymentService.Refund | backend/app/services/payment_service.py:198-285 | the loop over earlier refunds; appends one row of the amount asked for and takes what is left down by exactly that, or changes nothing |
| Payments.StepKeepsSound | backend/app/services/payment_service.py:198-285 | one call keeps each original plus its refunds between zero and the original amount, refund depth one, signs, and refunds on the same member, subscription and method, dated no earlier |
| Payments.LedgerStaysSound | backend/app/services/payment_service.py:120-285 | the same over every run from the empty ledger |
| Payments.FullRefundLeavesZero | backend/app/services/payment_service.py:198-285 | a refund without an amount leaves exactly zero, and any later refund is told it is already fully refunded |
| Payments.RefundAcceptedExactly | backend/app/services/payment_service.py:198-285 | a refund of n is accepted if and only if the row is an original and n is positive and at most what remains |
| Payments.TotalsNotNegative | backend/app/services/payment_service.py:198-285 | totals since the beginning, up to any date and for any choice of members, subscriptions and methods, are never negative |
| Payments.RootTotalsNotNegative | backend/app/services/payment_service.py:198-285 | any choice of original payments, each with its refunds up to a date, adds up to zero or more |
| Payments.OnlyCarriedRefundsPullBelowZero | backend/app/adapters/storage/postgres/payment/repositories.py:166-175 | the total of a range is at least the refunds in it of earlier payments: only those can make it negative |
| Payments.MonthCanBeNegative | backend/app/adapters/storage/postgres/payment/repositories.py:166-175 | a concrete run whose second month is negative |
| Payments.SummaryRanges | backend/app/services/payment_service.py:333-336 | the two ranges are the current month up to today and the whole month before it, with no day between |
| Payments.SummarySums | backend/app/services/payment_service.py:338-357 | the two totals are the sums of the rows of their ranges, and the paying members are those with a row in the month so far |
| Payments.SummaryGroups | backend/app/services/payment_service.py:346-351 | each method and each plan has the sum of its own rows of the month so far |
| Payments.SummaryConserves | backend/app/services/payment_service.py:340-357 | methods add up to the month, plans and drop-ins together do too, and the average per paying member is the floor |

## Left out

- ScheduleRuns.FutureRowsAgree: promises agreement for runs without an edit between a listing and its extension only, since the code does not keep it otherwise; `FutureRowsAgreeExactly` says when it does.
- Payroll.FixedProrated: exact rationals stand for Python's 28-digit Decimal, whose rounding can disturb an exact tie; years are unbounded, where Python stops at 9999.
- Payroll.EarningsFor: the coach and links are given; attributes copied into rows (names, currency) are left out.
- ScheduleServices.ScheduleService.UpdateTemplate: takes the whole edited template instead of the optional fields of the request; a request that leaves a field out is the template with that field kept.
- ScheduleServices.ScheduleService.BulkAction: takes a well-formed action; a swap that names no coach, and an unknown action, are refused by the source and have no value here.  Pay links change only here, not by the owner.
- ScheduleServices.ScheduleService.CreateTemplate: the checks that the class and coaches exist in the tenant are left out, here and in the other schedule commands.
- Attendance.QuotaHolds: promises the plain bound for runs without straddling check-ins only, since the code does not keep it otherwise; `OverrunExactly` and `QuotaHoldsExactly` say when it does.
- Attendance.NeverQuotaHolds: promises the bound for runs without early check-ins only, since the code does not keep it otherwise; `QuotaHoldsExactly` says when it does.
- Attendance.AttendanceService.RecordEntry: each member's live subscription and plan are fixed for the run; coach attribution and the session link of the entry are left out; where the database lists entitlements in no stated order, the given order is used.
- Payments.SummaryConserves: the month-over-month percentage is floating point and is left out.
- Transactions that overlap: the services take no lock, so two refunds or two check-ins at once can read the same rows.  Only whole transactions interleave here.
- The event log of subscriptions, `days_late`, payment methods of subscriptions.
- Member, coach, tenant, user, class and plan maintenance; member status changed outside subscriptions.
- Leads, authentication, roles and tenant scoping: one tenant and an authorised caller are assumed.
- HTTP, logging, task scheduling and the frontend.
- Free text beyond cancellation reasons and session notes, UUIDs, currencies, audit columns such as who cancelled; weekday strings are the numbers 0 (Sunday) to 6.
- The rule that continues a time zone after its last listed transition: any finite list of transitions is covered instead.
