# A verified model of the kids-job-app server

kids-job-app is a household chore and allowance tracker. Parents define
recurring chores, one-off paid jobs and weekly allowances. Kids complete
chores, claim jobs and mark them done. Parents approve or reject that work,
hand out cash and adjust balances. A kid's balance is never stored: it is
recomputed from the approved work and the ledger rows every time it is read.

This project models the server side of that system in Dafny:

- the Monday-to-Sunday week arithmetic (`week.dfy`, module `Week`);
- the record shapes of the store (`schema.dfy`, `Schema`);
- the pure parts of the four server files (`chores.dfy`, `jobs.dfy`,
  `bank.dfy`, `auth.dfy`): row builders, single-table updates and the
  queries;
- the store itself (`server.dfy`, `Server`). A `Store` class holds the six
  tables as sequences, and every server function that writes has a method on
  it. Each method states its result and the exact store it leaves, in terms
  of the pure functions. It also keeps the store invariant: unique primary
  keys, job rows whose status and claimant agree, and payouts stored with a
  non-positive amount.

`tables.dfy` (`Tables`) holds the generic table operations the queries are
built from: filter, filter-map, lookup, `UPDATE ... WHERE`,
`DELETE ... WHERE`, sort by a total preorder, and sum.

Modelling conventions:

- The caller's session is an `Option<Id>`: absent means not signed in.
- Input validators run before the handler, so invalid input is reported as
  `InvalidInput` before the session is looked at.
- Ids the store generates, and the clock, are parameters. Materialisation
  takes an injective `newId: nat -> Id` whose ids are all unused.
- Money is an exact `real`. Stored timestamps are `int` milliseconds.
- Time of day is read in one fixed zone: an instant is whole days since
  1970-01-01 plus milliseconds into the day, and the JavaScript weekday is
  `(day + 4) % 7`.
- A join on a primary key is a lookup of that row. An `ORDER BY` is a sorted
  permutation of the rows.

## Model

| member | source | states |
|---|---|---|
| Week.Weekday | src/lib/week.ts:10 | getDay is a weekday index in 0..6 |
| Week.FromTime | src/lib/week.ts:75-77 | new Date(t) is an instant whose timestamp is t, with in-range milliseconds |
| Week.WeekStart | src/lib/week.ts:8-16 | the result is a Monday at 00:00:00.000 no more than 6 days before the date; a Sunday goes back 6 days, any other day goes back weekday-1 days |
| Week.WeekEnd | src/lib/week.ts:21-27 | a Sunday, 6 days after the week start, with the date between start and end, one millisecond short of a full week after the start |
| Week.PreviousWeek | src/lib/week.ts:41-45 | exactly 7 days earlier, same weekday and time of day |
| Week.NextWeek | src/lib/week.ts:50-54 | exactly 7 days later, same weekday and time of day |
| Week.WeekStartTimestamp | src/lib/week.ts:75-77 | the timestamp of getWeekStart: reading it back gives the week start; it is a whole day; the date lies less than a week after it |
| Week.TimeRoundTrip | src/lib/week.ts:75-77 | converting an instant to its timestamp and back gives the same instant |
| Week.TimeInjective | src/lib/week.ts:59-62 | equal getTime values mean equal instants |
| Week.WeekStartUnique | src/lib/week.ts:8-16 | the only Monday midnight at most 6 days before a date is that date's week start |
| Week.WeekStartFixesMonday | src/lib/week.ts:8-16 | a Monday midnight is its own week start |
| Week.WeekStartIdempotent | src/lib/week.ts:8-16 | getWeekStart(getWeekStart(d)) == getWeekStart(d) |
| Week.WeekContains | src/lib/week.ts:8-27 | getWeekStart(d) <= d <= getWeekEnd(d), and d is less than 7 days after its week start |
| Week.SameWeekSameEnd | src/lib/week.ts:21-27 | two dates have the same week end if and only if they have the same week start |
| Week.WeekEndConstantOnWeek | src/lib/week.ts:21-27 | every date from a Monday midnight up to 6 days later has that Monday's week end |
| Week.NextPreviousInverse | src/lib/week.ts:41-54 | getNextWeek and getPreviousWeek undo each other |
| Week.StepKeepsAlignment | src/lib/week.ts:41-54 | stepping a week commutes with taking the week start, and keeps a Monday midnight a Monday midnight |
| Week.WeekCasesExclusive | src/lib/week.ts:59-70 | isCurrentWeek and isFutureWeek never both hold; exactly one of current, future and earlier holds |
| Week.CurrentWeekIsWeekStart | src/lib/week.ts:59-62 | isCurrentWeek(w) holds exactly when w is getWeekStart(now) |
| Week.CalendarExamples | src/lib/week.ts:8-27 | concrete dates of January 2024: a Sunday maps back to the previous Monday, a Monday to itself, and the week end is the Sunday's last millisecond |
| Chores.ApplyTemplatePatch | src/server/chores.ts:98-110 | every supplied field is replaced and every other field kept; an absent daysOfWeek keeps it, a null clears it; id, family and creator never change |
| Chores.PatchLaws | src/server/chores.ts:98-110 | a patch with no field changes nothing, and applying a patch twice is applying it once |
| Chores.PatchTemplates | src/server/chores.ts:105-110 | the row with the id is patched, every other row is unchanged, and unique ids stay unique |
| Chores.PatchedTemplateFound | src/server/chores.ts:105-111 | the row the update returns is the patched template when one has the id, and nothing otherwise |
| Chores.DeleteTemplate | src/server/chores.ts:128 | exactly the rows with another id stay, with their multiplicity |
| Chores.WindowEnd | src/server/chores.ts:137-138 | the end of the instance window is less than a week after its start |
| Chores.MissingTemplates | src/server/chores.ts:141-163 | exactly the active templates without an instance in the window |
| Chores.Instantiate | src/server/chores.ts:162-169 | one instance per template, the k-th with id newId(k) |
| Chores.NewInstances | src/server/chores.ts:157-169 | one inserted row per missing template, the k-th with id newId(k) |
| Chores.NewInstancesShape | src/server/chores.ts:164-169 | each created instance is pending, for its template's kid, with weekStart = w, for a template that had no instance in the window; every such template gets one |
| Chores.MaterialiseCovers | src/server/chores.ts:141-173 | after materialisation every active template has an instance whose weekStart lies in [w, getWeekEnd(w)] |
| Chores.InactiveNotMaterialised | src/server/chores.ts:141-163 | an inactive template never gets a new instance |
| Chores.MaterialiseIdempotent | src/server/chores.ts:157-175 | a second call for the same week with nothing changed in between inserts nothing, so it returns created == 0 |
| Chores.MaterialiseKeepsOnePerTemplate | src/server/chores.ts:157-173 | when no template had two instances in the window before, none has two after |
| Chores.OnePerTemplateAppend | src/server/chores.ts:157-173 | appending instances for distinct, uncovered templates keeps one instance per template per window |
| Chores.MarkComplete | src/server/chores.ts:263-271 | the row with the id becomes awaiting approval with completedAt = now, from any status, its other fields kept; other rows are untouched |
| Chores.Decide | src/server/chores.ts:286-319 | the row with the id becomes approved, or rejected, with approvedAt = now and approvedById = the caller, its other fields kept; other rows are untouched |
| Chores.FindInstance | src/server/chores.ts:270-273 | the row the update returns has the id, and there is none only when no row has it |
| Chores.CompletedInstanceFound | src/server/chores.ts:260-274 | markChoreComplete returns a row exactly when one had the id, and that row awaits approval with completedAt = now |
| Chores.SameOccurrencesSameWindows | src/server/chores.ts:141-163 | rewriting rows without changing template, kid or week keeps the set of covered templates of every window |
| Chores.WindowsIncluded | src/server/chores.ts:150-159 | rows with the same template and week cover at least the same templates |
| Chores.TransitionsKeepWindows | src/server/chores.ts:263-321 | completing, approving or rejecting leaves every window's covered templates as they were, so materialisation afterwards adds nothing |
| Chores.PendingChoreRows | src/server/chores.ts:333-337 | only instances awaiting approval, each with its template and kid |
| Chores.PendingChoreApprovals | src/server/chores.ts:325-350 | the joined rows ordered by completedAt: sorted, and a permutation of the rows |
| Chores.PendingChoreApprovalsExact | src/server/chores.ts:333-338 | the queue holds one entry for each instance awaiting approval whose template and kid exist, and nothing else |
| Chores.ByNameOrder | src/server/chores.ts:203 | ordering by chore name is a total preorder |
| Chores.KidWeekRows | src/server/chores.ts:190-202 | only the kid's instances in the window, with their template's fields |
| Chores.KidWeek | src/server/chores.ts:179-215 | the kid's rows of the week, sorted by chore name, a permutation of the joined rows |
| Chores.KidWeekExact | src/server/chores.ts:190-203 | exactly the kid's instances in the window whose template exists, each with its template's name and value |
| Chores.ByKidThenNameOrder | src/server/chores.ts:243 | ordering by kid name, then chore name, is a total preorder |
| Chores.FamilyWeekRows | src/server/chores.ts:230-242 | only instances in the window, with their template and their kid |
| Chores.FamilyWeek | src/server/chores.ts:218-257 | every family's instances in the window (the query has no session check and no family filter), sorted by kid then chore name, a permutation of the joined rows |
| Chores.FamilyWeekExact | src/server/chores.ts:230-243 | exactly the instances in the window whose template and kid exist, each with the kid's id and name |
| Jobs.CreateJobAsWrittenIsRefused | src/server/jobs.ts:91-101 | the row createJob builds has no family, so the store refuses it whatever the input; the corrected row is accepted |
| Jobs.ApplyJobPatch | src/server/jobs.ts:123-128 | the supplied fields are replaced; id, status, claimant and creator are kept |
| Jobs.PatchJobs | src/server/jobs.ts:125-128 | the row with the id is patched, every other row is unchanged, and unique ids stay unique |
| Jobs.PatchedJobFound | src/server/jobs.ts:125-132 | the row the update returns is the patched job when one has the id, and nothing otherwise |
| Jobs.DeleteJob | src/server/jobs.ts:145 | exactly the rows with another id stay, with their multiplicity |
| Jobs.ClaimWhere | src/server/jobs.ts:166-173 | only a row with the id that is still available becomes claimed, by the kid, at now, its other fields kept; every other row is untouched |
| Jobs.ClaimReturning | src/server/jobs.ts:166-175 | the row the conditional update returns exists exactly when a row matched, and is that row as claimed |
| Jobs.ClaimOutcomes | src/server/jobs.ts:151-182 | fails with "Job not found" exactly when the id is absent and with "no longer available" exactly when the job is not available; otherwise the job comes back claimed by the kid, the lost-race error never occurs, and a failure leaves the table unchanged |
| Jobs.ClaimIsExclusive | src/server/jobs.ts:161-179 | after one successful claim, any later claim of the same job by any kid fails and leaves the table unchanged, both when it reads after the first update and when it raced it; the first claimant keeps the job |
| Jobs.ClaimLeavesNoneAvailable | src/server/jobs.ts:166-173 | after a claim no row with that id is available |
| Jobs.ClaimWhereWithoutMatch | src/server/jobs.ts:173 | an update whose WHERE matches no row changes nothing |
| Jobs.MarkComplete | src/server/jobs.ts:188-196 | the row with the id becomes awaiting approval with completedAt = now, from any status, its other fields kept; other rows are untouched |
| Jobs.Decide | src/server/jobs.ts:211-242 | the row with the id becomes approved, or rejected, with approvedAt = now and approvedById = the caller, its other fields kept; other rows are untouched |
| Jobs.WritesKeepSound | src/server/jobs.ts:76-199 | every write to the jobs table keeps each row stored with a family, and keeps status and claimant consistent |
| Jobs.BoardRows | src/server/jobs.ts:11-18 | only available jobs, each with its creator's name |
| Jobs.AvailableJobs | src/server/jobs.ts:9-26 | the board rows ordered by createdAt: sorted, and a permutation of the rows |
| Jobs.AvailableJobsExact | src/server/jobs.ts:17-18 | exactly the available jobs whose creator exists |
| Jobs.ClaimedFirstOrder | src/server/jobs.ts:70 | ordering by claimedAt is a total preorder |
| Jobs.MyJobs | src/server/jobs.ts:63-73 | exactly the jobs the kid claimed, in any status, sorted by claimedAt, each as often as stored |
| Jobs.PendingJobRows | src/server/jobs.ts:254-260 | only jobs awaiting approval, each with its claimant |
| Jobs.PendingJobApprovals | src/server/jobs.ts:250-273 | the joined rows ordered by completedAt: sorted, and a permutation of the rows |
| Jobs.PendingJobApprovalsExact | src/server/jobs.ts:259-260 | one entry for each job awaiting approval whose claimant exists; a job nobody claimed never appears |
| Auth.CurrentUser | src/server/auth.ts:8-18 | null without a session; otherwise the session's user |
| Auth.UserByNameOrder | src/server/auth.ts:25 | ordering users by name is a total preorder |
| Auth.Kids | src/server/auth.ts:20-28 | exactly the users with role child, each as often as stored, ordered by name |
| Auth.KidById | src/server/auth.ts:30-44 | either the user with the id, who is a child, or "Kid not found" |
| Auth.KidByIdExact | src/server/auth.ts:39-41 | fails exactly when no user with the id is a child: it is absent or has another role |
| Auth.FamilyName | src/server/auth.ts:66 | the parent's name followed by "'s Family", as prefix and suffix |
| Auth.KidEmail | src/server/auth.ts:86 | the kid id followed by "@kid.local" |
| Auth.KidEmailInjective | src/server/auth.ts:80-86 | distinct kid ids give distinct placeholder emails |
| Auth.KidFamily | src/server/auth.ts:61-77 | the parent's family when set and non-empty, otherwise the newly created one |
| Auth.NewKid | src/server/auth.ts:80-93 | role child, the family given, a verified email "<id>@kid.local", the name, the allowance or its default 0, both timestamps now |
| Auth.SetFamily | src/server/auth.ts:73-76 | only the parent's row gets the family; ids stay unique |
| Auth.ApplyKidPatch | src/server/auth.ts:115-119 | the name changes only to a non-empty given name, the allowance only when given, updatedAt always; every other field is kept |
| Auth.EmptyKidPatchStampsOnly | src/server/auth.ts:115-119 | a patch with no field still stamps updatedAt and changes nothing else |
| Auth.PatchUsers | src/server/auth.ts:121-124 | only the row with the id is patched, whatever its role; ids stay unique |
| Auth.PatchedUserFound | src/server/auth.ts:121-126 | the row the update returns is the patched user when one has the id, and nothing otherwise |
| Auth.DeleteUser | src/server/auth.ts:140 | exactly the users with another id stay, with their multiplicity |
| Bank.ApprovedChores | src/server/bank.ts:13-25 | exactly the kid's approved instances whose template exists, each joined with that template |
| Bank.ApprovedJobs | src/server/bank.ts:30-38 | exactly the approved jobs claimed by the kid |
| Bank.KindRows | src/server/bank.ts:43-77 | exactly the kid's ledger rows of one type |
| Bank.Magnitude | src/server/bank.ts:79 | Math.abs: non-negative, and the amount or its negation |
| Bank.TotalPayouts | src/server/bank.ts:68-79 | the sum of the payout magnitudes, which is never negative |
| Bank.GetBalance | src/server/bank.ts:9-90 | the five scans and balance = choreEarnings + jobEarnings + allowanceEarnings + adjustments - totalPayouts |
| Bank.ChoreEarningsPerInstance | src/server/bank.ts:13-27 | chore earnings are a sum over all instances in which pending, awaiting, rejected, other kids' and orphaned instances count 0 |
| Bank.JobEarningsPerJob | src/server/bank.ts:30-40 | job earnings are a sum over all jobs in which any job not approved or not claimed by the kid counts 0 |
| Bank.OnlyRowChanged | src/server/bank.ts:13-40 | under unique ids, an update of one id changes only that row |
| Bank.DecideChoreEffect | src/server/bank.ts:13-27 | approving a chore replaces its earlier credit with the template value and rejecting replaces it with 0, so approving twice does not pay twice |
| Bank.CompleteChoreEffect | src/server/bank.ts:13-27 | completing a chore again withdraws any credit it had |
| Bank.DecideJobEffect | src/server/bank.ts:30-40 | approving pays the claimant the job's amount once; rejecting pays nothing |
| Bank.ClaimAndCompleteJobEffect | src/server/bank.ts:30-40 | claiming leaves job earnings unchanged; completing withdraws an approved job's credit |
| Bank.KindRowsSnoc | src/server/bank.ts:43-77 | a scan over a table with one more row gains that row exactly when it is the kid's and of that type |
| Bank.KindSumSnoc | src/server/bank.ts:53-79 | a scan's sum over a table with one more row gains that row's value exactly when the row is the kid's and of that type |
| Bank.AppendEffect | src/server/bank.ts:43-81 | one appended ledger row moves the kid's balance by exactly its effect: its amount, minus its magnitude for a payout, 0 for job_payment and for other kids |
| Bank.PayoutRow | src/server/bank.ts:255-266 | amount -abs(x), type payout, paid now, description as given or "Cash payout" |
| Bank.PayoutEffect | src/server/bank.ts:244-264 | a payout of x lowers the kid's balance by exactly x and no other kid's balance |
| Bank.AllowanceAmount | src/server/bank.ts:286-304 | the override when given, otherwise the kid's allowance (default 0); "Kid not found" without a kid; an error when the amount is not positive |
| Bank.AllowanceRow | src/server/bank.ts:306-315 | one weekly_allowance row of that amount, unpaid, described "Weekly Allowance" |
| Bank.AllowanceEffect | src/server/bank.ts:306-315 | the kid's balance and allowance earnings rise by exactly the amount; payouts are unchanged |
| Bank.AdjustmentRow | src/server/bank.ts:336-345 | one adjustment row with the signed amount and the reason given |
| Bank.AdjustmentEffect | src/server/bank.ts:336-345 | the kid's balance changes by exactly the signed amount and nothing else in the report changes |
| Bank.JobPaymentIgnored | src/server/bank.ts:43-81 | a job_payment row never changes any balance report |
| Bank.History | src/server/bank.ts:93-214 | sorted with dates that never increase (a missing date counts 0), a permutation of the five lists, as long as their five counts together |
| Bank.HistoryAddsUpToBalance | src/server/bank.ts:81-211 | when payouts are stored non-positive, the history's amounts add up to the balance |
| Bank.PayoutsStoredNegative | src/server/bank.ts:79-198 | payouts stored non-positive add up to minus totalPayouts |
| Bank.AllEntriesSum | src/server/bank.ts:112-206 | the five lists add up to the five sums of the balance, with payouts at their stored sign |
| Bank.AllKidsBalances | src/server/bank.ts:217-237 | one entry per kid of getKids, in that order, each with that kid's getBalance report |
| Server.ParentFamily | src/server/chores.ts:48-56 | the family is the one on the signed-in caller's row, and is present only when that row exists and names a non-empty family |
| Server.MaterialiseKeepsKeys | src/server/chores.ts:161-173 | instances inserted with fresh, distinct ids keep instance ids unique |
| Server.WithUsers | src/db/schema.ts:17-30 | rewriting the user table with unique ids keeps the store invariant |
| Server.WithTemplates | src/db/schema.ts:73-95 | rewriting the template table with unique ids keeps the store invariant |
| Server.WithJobs | src/db/schema.ts:123-150 | rewriting the job table with unique ids and sound rows keeps the store invariant |
| Server.WithTransaction | src/db/schema.ts:152-171 | appending a fresh ledger row that is not a positive payout keeps the store invariant |
| Server.PayoutMoves | src/server/bank.ts:255-266 | appending the payout row lowers the kid's balance by exactly the payout |
| Server.AllowanceMoves | src/server/bank.ts:306-315 | appending the allowance row raises the kid's balance by exactly the amount |
| Server.AdjustmentMoves | src/server/bank.ts:336-345 | appending the adjustment row moves the kid's balance by exactly the signed amount |
| Server.Store.constructor | src/db/schema.ts:1-280 | an empty store is valid |
| Server.Store.CreateChoreTemplate | src/server/chores.ts:30-76 | invalid input, no session and no family on the caller each fail and change nothing; otherwise the new active template of the caller's family is appended and nothing else changes |
| Server.Store.UpdateChoreTemplate | src/server/chores.ts:79-116 | invalid input, no session and an empty update each fail and change nothing; otherwise only the row with the id is patched, and the result is the patched row, or a failure when no row has the id |
| Server.Store.DeleteChoreTemplate | src/server/chores.ts:119-131 | fails without a session; otherwise only the rows with the id are removed |
| Server.Store.EnsureWeeklyChoresExist | src/server/chores.ts:134-176 | only appends the missing instances, touches no other table, and created equals the number of rows inserted |
| Server.Store.GetWeeklyChoresForKid | src/server/chores.ts:179-215 | materialises the week, then returns the kid's week of the resulting table |
| Server.Store.GetAllWeeklyChores | src/server/chores.ts:218-257 | materialises the week, then returns every family's instances in the window of the resulting table; no session is needed |
| Server.Store.MarkChoreComplete | src/server/chores.ts:260-274 | no session needed; only the instance table changes, and the result is the updated row, present exactly when the id exists, awaiting approval with completedAt = now |
| Server.Store.DecideChore | src/server/chores.ts:277-322 | fails without a session and changes nothing; otherwise the returned row is approved, or rejected, with approvedById = the caller and approvedAt = now |
| Server.Store.ApproveChore | src/server/chores.ts:277-298 | fails without a session; otherwise the approve update applied and its row returned |
| Server.Store.RejectChore | src/server/chores.ts:301-322 | fails without a session; otherwise the reject update applied and its row returned |
| Server.Store.CreateJob | src/server/jobs.ts:76-104 | invalid input, no session and no family each fail and change nothing; otherwise one available job, created by the caller, in the caller's family, is appended |
| Server.Store.UpdateJob | src/server/jobs.ts:107-133 | invalid input, no session and an empty update each fail and change nothing; otherwise only the row with the id is patched and returned, if one exists |
| Server.Store.DeleteJob | src/server/jobs.ts:136-148 | fails without a session; otherwise only the rows with the id are removed |
| Server.Store.ClaimJob | src/server/jobs.ts:151-182 | the read, the two checks and the conditional update; the result and the new job table are those of the claim on the table read |
| Server.Store.MarkJobComplete | src/server/jobs.ts:185-199 | no session needed; only the job table changes, and the result is the updated row, awaiting approval with completedAt = now |
| Server.Store.DecideJob | src/server/jobs.ts:202-247 | fails without a session and changes nothing; otherwise the returned row is approved, or rejected, with approvedById = the caller and approvedAt = now |
| Server.Store.ApproveJob | src/server/jobs.ts:202-223 | fails without a session; otherwise the approve update applied and its row returned |
| Server.Store.RejectJob | src/server/jobs.ts:226-247 | fails without a session; otherwise the reject update applied and its row returned |
| Server.Store.Append | src/server/bank.ts:255-266 | exactly one row appended to the ledger and nothing else changed |
| Server.Store.RecordPayout | src/server/bank.ts:240-269 | amounts below 0.01 and no session fail and change nothing; otherwise exactly the payout row is appended, the kid's balance drops by exactly the amount, and no balance check is made |
| Server.Store.ApproveWeeklyAllowance | src/server/bank.ts:272-318 | an override below 0.01, no session, a missing kid and a non-positive amount fail and change nothing; otherwise exactly one allowance row is appended and the balance rises by its amount |
| Server.Store.AdjustBalance | src/server/bank.ts:321-348 | an empty description and no session fail and change nothing; otherwise exactly one adjustment row is appended and the balance moves by exactly the signed amount |
| Server.Store.CreateKid | src/server/auth.ts:46-98 | invalid input and no signed-in user fail and change nothing; a parent with a family gets only the kid appended; a parent without one gets exactly one new family named after them, is linked to it, and the kid joins it |
| Server.Store.UpdateKid | src/server/auth.ts:100-129 | invalid input and no session fail and change nothing; otherwise only the user row with the id is patched and returned, if one exists |
| Server.Store.DeleteKid | src/server/auth.ts:131-143 | fails without a session; otherwise only the user rows with the id are removed, whatever their role |

## Left out

- `formatWeekRange` (src/lib/week.ts:32-36): it only formats dates for display, by locale.
- Time zones, daylight saving time and the month rollover of `setDate`: the model reads all instants in one fixed zone with 24-hour days.
- Storage of timestamps at one-second precision (SQLite `timestamp` mode): timestamps are kept in milliseconds.
- JavaScript floating-point money: amounts are exact reals, so the sums do not round.
- The concurrent race in `claimJob`: `Jobs.ClaimIsExclusive` covers the interleaving in which another claim lands between the read and the update. `Server.Store.ClaimJob` itself runs sequentially.
- Foreign-key constraints and cascading deletes: deleting a template, job or user leaves rows that refer to it. The joins then simply skip such rows.
- `getChoreTemplates` and `getAllJobs`: parent listings outside the modelled server functions.
- The order of rows that tie under an `ORDER BY` or under the history's date comparator: the model promises a sorted permutation only.
- The per-list `ORDER BY ... DESC` inside `getTransactions`: the final sort is what decides the returned order.
- The JSON encoding of `daysOfWeek`: it is a sequence of weekday indices.
- The session's own copy of the user: the model reads the caller's row from the user table, so a session whose row is missing counts as not signed in.
- Fresh ids: the store's random UUIDs are parameters, required to be unused.
- The nullable `isActive` and `createdAt` defaults of schema.ts: templates are created active, instances carry only the fields the queries read.
- The uniqueness of `user.email`: only primary keys are kept unique. `Auth.KidEmailInjective` shows that kid emails cannot collide.
- `getTransactions` and the balance queries stay pure functions of the tables: they do not change the store.
- Server.Store.ClaimJob: states its result through `Jobs.Claim` on the table it reads. The failure cases and exclusivity are the lemmas `Jobs.ClaimOutcomes` and `Jobs.ClaimIsExclusive`.
- Server.Store.GetWeeklyChoresForKid: the template's family and the kid's family are not compared, as the source does not compare them either.

## Findings

| source | as written | input that shows it | evidently intended | confidence | as-written member | corrected member |
|---|---|---|---|---|---|---|
| src/server/jobs.ts:91-99 | createJob inserts a job without `familyId`, but `jobs.family_id` is NOT NULL with no default (src/db/schema.ts:127-129), so the insert fails | any valid input from a signed-in parent | the job is created in the parent's family, as createChoreTemplate does | medium, not executed | Jobs.CreateJobAsWrittenIsRefused | Server.Store.CreateJob |

Other behaviours that follow from the code and that the model keeps:

- `markChoreComplete` and `markJobComplete` have no guard on the prior status. Completing an approved chore again therefore withdraws its credit (`Bank.CompleteChoreEffect`).
- `updateKid` and `deleteKid` do not check the row's role.
- `recordPayout` does not compare the payout with the balance.
