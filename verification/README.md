# Altar OS: a verified model of its scheduling core and of its shared-state services

The model covers two parts of Altar OS.

**Events.** A small rule language (FREQ, INTERVAL, COUNT, UNTIL, BYDAY of section 3.3.10 of RFC 5545)
is parsed, printed and expanded into dates; on top of it stand the calendar listings, the filing of a
check-in under one staging of an event, invitations, and the reconciliation of offline check-in queues,
both as one call and as interleaved database steps of several devices.

**Services whose state must stay consistent over every run.** The follow-up task machine with its
escalation sweep (as whole calls and as interleaved reads and writes), the church hierarchy, church
addresses, custom domains and host routing, one-time codes, and the consent log.

Each source file that changes things step by step is modelled by methods and classes; each method is
proved equal to a specification function, and the lemmas say what that function means without stepping.
`dafny verify dfyconfig.toml` checks everything.

| file | models |
|---|---|
| `Calendar`, `Arithmetic`, `Sets`, `Text`, `Options` | civil dates and day numbers; sizes of sets; the parts of Go's `strings`, `strconv` and `time` that are used |
| `Recurrence`, `Expansion` | the series of a rule, its closed form, and the bounded scan |
| `RuleText`, `RoundTrip`, `RuleMeaning` | the rule language, its canonical text, and rules as people type them |
| `Events`, `Listing`, `Upcoming` | what may be stored, snapping, projecting, paging, and the next dates of all events |
| `DailyEvents` | storable events whose stagings are easily told, the witnesses of the exact conditions |
| `Rsvp` | answers, the published count, capacity and its edits |
| `Attendance`, `SyncMeaning`, `Reconciliation`, `BatchSplit` | one sync, what it stores and reports, and what a series of syncs amounts to |
| `SyncProtocol`, `SyncRuns`, `SyncRefinement` | interleaved syncs, and their relation to whole calls |
| `FollowUp`, `FollowUpProtocol` | the task service, and sweepers and volunteers interleaved |
| `Hierarchy`, `Slugs`, `Hostnames`, `HostHeaders`, `Domains` | re-parenting, addresses, hostnames, custom domains and routing |
| `Otp`, `Consent` | one-time codes and the consent log |

Where the model and the documentation of the code disagree, the model follows the code:

- The comment at `internal/domain/event/recurrence.go:323` argues the month fallback is dead because every
  31-day month occurs yearly. That argument does not cover 29 February with an INTERVAL that is a multiple of 12;
  the conclusion still holds, for a different reason (`Recurrence.ProbeAlwaysHits`).
- A retry of the same batch is promised to add nothing (`internal/domain/event/service.go:676-679`). For a row whose device time is
  missing or too far ahead this fails when the retry falls nearer another staging; `Reconciliation.SafeRetryExactly` gives the exact batches.
- Repeats are collapsed per member, not per member and staging, so one queue sent in two halves may store more
  than the same queue sent whole (`BatchSplit.SplitIsNeutralExactly`).
- "A touched task is not escalated" (`internal/domain/discipleship/escalation.go:65-67`) holds at the sweep's read, not at its
  write (`FollowUpProtocol.TouchedEscalationExactly`, `FollowUpProtocol.TouchedTaskMayEscalate`).
- The published `attendanceCount` may lag behind the store (`SyncRuns.PublishedCountMayLag`); `SyncRuns.PublishedCountExactly` says when it is exact.
- The next dates are complete only up to 200 candidate events, ended series counted (`Upcoming.ReadLimitExactly`).
- `SetParent` compares ids as text but the database decodes them, so an id spelled with capital hexadecimal
  digits can close a cycle (`Hierarchy.AcyclicIffSafelySpelled`).
- The comment at `internal/service/hosttenant.go:124-126` promises that no custom-domain record can capture a platform host however it was
  created. Hosts under reserved slugs, the base domain itself and deeper names do reach the lookup (`Domains.PlatformHostCapture`,
  `Domains.ApiHostIsCaptured`); what keeps them safe is that none can be claimed (`Domains.HeaderIsRouted`).
- The comment at `internal/domain/auth/otp.go:61-70` promises that the namespace keeps sign-ins to two churches separate. It does not for a
  phone given under no church that reads as another church's id, a colon and a number, and `ResetPassword`
  (`internal/domain/auth/passwordreset.go:100-112`) passes the phone on as it was posted; `Otp.PairsSeparateExactly` says exactly which pairs
  are kept apart.
- "One task's problem must not stop the sweep" (`internal/domain/discipleship/escalation.go:84-85`) holds within one sweep, but a hundred overdue tasks with
  failing lookups and the earliest deadlines fill every sweep (`FollowUp.EscalatedInTheEndExactly`).
- An edited capacity may fall below the number going (`Rsvp.RunFitsExactly`).

## Model

| member | source | states |
|---|---|---|
| Calendar.CivilOfDay | internal/domain/event/recurrence.go:307-330 | Gregorian arithmetic the month stepping relies on: every day number is exactly one valid civil date |
| Calendar.DayOfCivil | internal/domain/event/recurrence.go:148-156 | the other direction: a valid civil date is recovered from its day number, leap and century years included |
| Calendar.MonthStartMonotone | internal/domain/event/recurrence.go:307-325 | month starts are strictly increasing, at least 28 days apart, so month order is date order |
| Calendar.MonthsClosed | internal/domain/event/recurrence.go:327-330 | every month of every year begins on the day, and has the length, that the arithmetic closed form of the Gregorian calendar gives without any month table |
| Calendar.KnownDays | internal/domain/event/recurrence.go:267-298 | the weekday count is anchored: 1 January 1970 was a Thursday |
| Recurrence.ProbeAlwaysHits | internal/domain/event/recurrence.go:311-325 | from a month that holds the anchor's day, 48 probes find the next such month for every INTERVAL, 29 February across century years included: the fallback is dead |
| Recurrence.MonthlyNext | internal/domain/event/recurrence.go:300-325 | one monthly step lands on the very next month at a multiple of INTERVAL that contains the anchor's day, on that day and at the anchor's time of day |
| Recurrence.ByDayNext | internal/domain/event/recurrence.go:267-298 | one BYDAY step lands on the very next selected weekday in a Sunday-based week whose distance from the start's week is a multiple of INTERVAL |
| Recurrence.NextIsNext | internal/domain/event/recurrence.go:247-265 | for every frequency, a step from a member goes to the least later member and keeps the time of day |
| Recurrence.SeriesExact | internal/domain/event/recurrence.go:208-265 | stepping from the start enumerates exactly the dates of a closed-form pattern: an instant is reached if and only if it is in the pattern |
| Recurrence.SeriesApart | internal/domain/event/recurrence.go:250-265 | occurrences are strictly increasing and at least 24 hours apart |
| Expansion.DaysInIsLastDay | internal/domain/event/recurrence.go:327-330 | the day before the next month begins, in closed form, has as its day of month the length the stepping uses |
| Expansion.SecondProbe | internal/domain/event/recurrence.go:300-325 | a month too short for the anchor's day is skipped for the next one when that is long enough |
| Expansion.ThirtyFirstSkipsApril | internal/domain/event/recurrence.go:300-325 | in any year a series on the 31st goes from 31 March to 31 May |
| Expansion.ComputeNextByDay | internal/domain/event/recurrence.go:267-298 | the two offset loops with their week-crossing test compute the step that `ByDayNext` characterises |
| Expansion.ComputeNextMonthly | internal/domain/event/recurrence.go:300-325 | the nested month loops compute the step that `MonthlyNext` characterises, for every INTERVAL from 1 |
| Expansion.ComputeNext | internal/domain/event/recurrence.go:247-265 | the dispatch on frequency computes the step that `NextIsNext` characterises |
| Expansion.Occurrences | internal/domain/event/recurrence.go:208-245 | the scan with its five exits returns the first `limit` members of the series, among its first 5000, that survive COUNT, UNTIL and the window |
| Expansion.NothingLater | internal/domain/event/recurrence.go:221-232 | once one of the early exits is taken, no later member could have qualified |
| Expansion.WindowMembers | internal/domain/event/recurrence.go:214-245 | a window lists its members in strictly increasing order, all of them and nothing else |
| Expansion.ExpandSplit | internal/domain/event/recurrence.go:214-245 | for every limit from 1, the window [a,c) is [a,b) followed by [b,c), cut to the limit |
| Expansion.ExpandIsPattern | internal/domain/event/recurrence.go:201-245 | for every rule, COUNT included, a date is listed if and only if it is in the closed-form pattern, in the window, not past UNTIL, and before the occurrence where COUNT or the 5000-step ceiling ends; a smaller limit keeps the earliest dates |
| RuleText.ParseRecurrence | internal/domain/event/recurrence.go:62-146 | the field-filling loop accepts exactly the rules of the grammar and fails with the first error in reading order |
| RuleText.ReadDays | internal/domain/event/recurrence.go:115-123 | BYDAY lists accumulate over repeated parts, and one unknown code refuses the rule |
| RuleText.SortByWeekday | internal/domain/event/recurrence.go:178-199 | the scan over the seven codes writes the selected days once each, Sunday first |
| RuleText.String | internal/domain/event/recurrence.go:158-176 | the written text is the canonical one: parts in fixed order, defaults left out |
| RoundTrip.SortDaysMeaning | internal/domain/event/recurrence.go:178-199 | sorting BYDAY keeps exactly its days, strictly ascending, and sorting twice is sorting once |
| RoundTrip.UntilReads | internal/domain/event/recurrence.go:148-176 | every UNTIL instant with a four-digit year reads back from its text as the same instant |
| RoundTrip.ParseOfPrint | internal/domain/event/recurrence.go:62-199 | parsing the text of any well-formed rule gives the rule back, BYDAY sorted and de-duplicated |
| RoundTrip.ParseIsWellFormed | internal/domain/event/recurrence.go:134-145 | whatever text is accepted, the rule has a frequency, INTERVAL at least 1, BYDAY only when weekly, and not both COUNT and UNTIL |
| RoundTrip.StoredTextIsFixpoint | internal/domain/event/service.go:177-183 | the canonical form `normalise` stores parses, and printing that gives the same text |
| RoundTrip.SameTextIffSameRule | internal/domain/event/recurrence.go:158-199 | two rules print alike if and only if they differ at most in the order and repetition of BYDAY |
| RoundTrip.CanonicalKeepsSeries | internal/domain/event/service.go:177-183 | storing the canonical form moves no occurrence of the event |
| RuleMeaning.UntilExactly | internal/domain/event/recurrence.go:148-156 | a text means an UNTIL instant if and only if it is that instant in one of the three layouts, the date alone for its first second only |
| RuleMeaning.PairExactly | internal/domain/event/recurrence.go:85-131 | each of the five parts takes exactly its own values, sets exactly its own field, and no other part is taken |
| RuleMeaning.NumberExactly | internal/domain/event/recurrence.go:97-112 | a number is decimal digits with an optional sign within 64 bits, and nothing else |
| RuleMeaning.DayCodes | internal/domain/event/recurrence.go:55-60 | the seven codes name the seven days, Sunday first, and nothing else names a day |
| RuleMeaning.DaysExactly | internal/domain/event/recurrence.go:115-123 | a BYDAY list is read if and only if every code is, in order |
| RuleMeaning.NotAPairRefuses | internal/domain/event/recurrence.go:76-84 | a part that is neither blank nor a pair refuses the rule wherever it stands |
| RuleMeaning.SwapParts | internal/domain/event/recurrence.go:76-131 | parts with different names may stand in any order |
| Text.LetterCase | internal/domain/event/recurrence.go:66-70 | in reading rules and hosts each capital and its small letter stand for each other and no other ASCII character changes |
| RuleMeaning.LowerCaseReads | internal/domain/event/recurrence.go:66-84 | a rule typed in lower case, with or without the prefix, in any surrounding space, is the rule |
| RuleMeaning.AcceptedExactly | internal/domain/event/recurrence.go:66-146 | a text is accepted if and only if its parts are, and they give a frequency, BYDAY only when weekly, and not both COUNT and UNTIL |
| RuleMeaning.FormDates | internal/domain/event/service.go:144-184 | the dates stored are the start as given and the end as given or two hours on, and exactly what is refused |
| RuleMeaning.StoredRuleIsTyped | internal/domain/event/service.go:144-244 | an event stored from a form shows, in every window, the dates of the rule as it was typed, UNTIL and COUNT included |
| Events.Normalise | internal/domain/event/service.go:144-184 | the field-by-field cleaning of a form: an absent end is two hours on, a rule is stored in canonical form, and the refusals |
| Events.StorableExactly | internal/domain/event/service.go:144-244 | the events some accepted form writes are exactly those with a start, a later end, and a canonical rule if and only if they repeat |
| Events.OccurrenceFor | internal/domain/event/service.go:861-889 | the running-best loop files a check-in under the staging that `FiledUnderNearest` characterises, or the series start without a usable rule |
| Events.SnapLimitIsEnough | internal/domain/event/service.go:870-873 | the limit of 128 never cuts the 62-day window of any rule |
| Events.FiledUnderNearest | internal/domain/event/service.go:847-889 | if any scanned occurrence lies in the window, the choice is a nearest one of the whole scanned series, the earliest on ties; otherwise the series start |
| Events.ExpandEvent | internal/domain/event/service.go:1036-1058 | one-off events and unreadable rules give their start unless it is past; a rule gives its expansion |
| Events.ProjectNextOccurrence | internal/domain/event/service.go:442-462 | computes the projection that `ProjectionIsEarliest` characterises, with a reversed event hidden |
| Events.ProjectionIsEarliest | internal/domain/event/service.go:442-462 | a repeating event is shown at its earliest scanned occurrence within a year whose end is not past, and hidden if and only if there is none |
| Events.ProjectedIsNotOver | internal/domain/event/service.go:450-461 | the last guard is dead: hidden if and only if the expansion found nothing |
| Events.ProjectionExactly | internal/domain/event/service.go:442-462 | for every event, repeating or not and whatever its rule text, what shows at a moment, if anything, said without expanding |
| Events.OneDateIsItsStart | internal/domain/event/service.go:861-869 | an event that does not repeat, or whose rule cannot be read, files every check-in under its start, and is expanded to its start unless that is before the window |
| Listing.UpcomingPage | internal/domain/event/service.go:385-427 | a page is the requested slice of the sorted visible list, with out-of-range page and limit replaced; everything on it shows then, and the total is the number of stored events that show |
| Listing.QueryLosesNothing | internal/domain/event/service.go:397-402 | the database filter drops only events that would not be visible |
| Listing.OrderIsUnique | internal/domain/event/service.go:411-416 | start and then id determine the arrangement, so the result does not depend on the sorting algorithm |
| Listing.PagesCoverTheList | internal/domain/event/service.go:388-427 | at a fixed moment the pages, one after another, are in order and show every visible event exactly once |
| Listing.PagesShowExactly | internal/domain/event/service.go:388-462 | the pages at one moment show each stored event that shows exactly once, as it shows, in order, and nothing else: one-off events until they end, unchanged, and repeating ones at their next staging |
| Upcoming.NextDates | internal/domain/event/service.go:956-997 | the returned dates are the `limit` earliest of the full expansions of all events read, whichever order the query gives equal starts |
| Upcoming.StagingMembers | internal/domain/event/service.go:974-990 | the listed stagings are exactly the dates of the events read, each under the event's id and as long as the event |
| Upcoming.QueryEvents | internal/domain/event/service.go:966-973 | answers the first 200 matching events by start date, ties left open |
| Upcoming.EarliestOfAll | internal/domain/event/service.go:974-996 | cutting each event's expansion to `limit` before sorting loses none of the overall earliest dates, however equal starts are ordered |
| Upcoming.ReadLimitExactly | internal/domain/event/service.go:966-973 | with n candidates the bounded query loses no date, whatever storable events they are and however ties fall, if and only if n is at most 200 |
| Rsvp.RsvpService.Respond | internal/domain/event/service.go:510-561 | replaces one member's answer or names the refusal, republishes the exact count, and takes no event over its capacity |
| Rsvp.RsvpService.SetCapacity | internal/domain/event/service.go:187-293 | creating and editing an event set its capacity, negative for none, without looking at who is going |
| Rsvp.RespondedExactly | internal/domain/event/service.go:510-561 | the exact case of every answer: taken, and stored for that event and member alone, unless the event, member or status is wrong or the event would be over its capacity with the member |
| Rsvp.FullIffOverfull | internal/domain/event/service.go:523-537 | "full" is said exactly to those whose yes would put the event over its capacity |
| Rsvp.RunFitsExactly | internal/domain/event/service.go:187-293 | over any run of answers and edits every event is within its capacity at every moment if and only if each edit leaves room for those going when it is made |
| Rsvp.RunNeverOverfills | internal/domain/event/service.go:510-561 | after any run whose edits leave that room no limited event is over its capacity, and somebody already going may say so again |
| Attendance.AttendanceService.Sync | internal/domain/event/service.go:674-845 | one sync changes the store, the reply and the published count as the specification says, and nothing on an unknown event or a failed roster |
| Attendance.AttendanceService.Insert | internal/domain/event/service.go:782-805 | the unordered insert under the unique key, telling duplicates from other write failures |
| Attendance.CollapseRows | internal/domain/event/service.go:694-728 | the cleaning loop keeps one row per member in order of first mention |
| Attendance.CheckRoster | internal/domain/event/service.go:730-748 | unknown members are rejected in order, the others kept in order |
| Attendance.BuildDocs | internal/domain/event/service.go:750-780 | one document per kept member, under the request's occurrence or the one the device time snaps to |
| SyncMeaning.RosterDecides | internal/domain/event/service.go:730-748 | a roster decides by its ids alone: only members on it gain a key, each named member not on it is rejected as unknown once, and each on it ends up with a key unless the write fails |
| SyncMeaning.NoRosterAdmitsAll | internal/domain/event/service.go:730-732 | without a roster nobody is unknown and everybody named ends up with a key unless the write fails |
| SyncMeaning.UnreachableRosterFails | internal/domain/event/service.go:731-736 | a roster that cannot be asked fails the call, changing nothing, if and only if somebody is named |
| SyncMeaning.RecordMeaning | internal/domain/event/service.go:700-780 | what a new record says: the earliest of the member's device times, missing or over five minutes ahead read as now, the method of the first such scan, and the occurrence the device named or that time is filed under |
| SyncMeaning.ReplyCounts | internal/domain/event/service.go:808-840 | the counts replied are the numbers of keys stored, for one occurrence if and only if the batch was filed under that one alone |
| Reconciliation.CollapseLists | internal/domain/event/service.go:694-728 | the collapsed batch lists exactly the distinct members named, and one rejection for each blank row |
| Reconciliation.ArrivalIsEarliest | internal/domain/event/service.go:700-728 | a member's check-in time is the least of their rows' clamped times |
| Reconciliation.InsertMeaning | internal/domain/event/service.go:782-805 | nothing stored is overwritten, every new key is counted once, and recorded, duplicate and failed add up |
| Reconciliation.SyncAccounts | internal/domain/event/service.go:692-805 | recorded + duplicate + rejected is the number of blank rows plus the number of distinct members named, for every batch, roster and write failure |
| Reconciliation.SafeRetryExactly | internal/domain/event/service.go:674-682 | a batch sent again adds nothing, for every store, storable event, reachable roster and later time, if and only if the device named the occurrence or every member it names has rows that fix their check-in time |
| Reconciliation.RetryIsIdempotent | internal/domain/event/service.go:674-682 | a steady batch sent again, later and after any other syncs, stores nothing, reports everyone as duplicate and rejects the same rows |
| Reconciliation.RunStoresTargets | internal/domain/event/service.go:683-845 | after any series of syncs a key is stored if and only if it was there before or some call asked for it |
| Reconciliation.OrderDoesNotMatter | internal/domain/event/service.go:674-682 | any two orders, with any repetitions and times, of the same steady batches store the same keys |
| BatchSplit.SplitIsNeutralExactly | internal/domain/event/service.go:719-728 | a queue served whole and in two halves leaves the same attendance, for every store and storable event, if and only if the device named the occurrence or both halves give every shared known member the same arrival time |
| BatchSplit.ArrivalOfConcat | internal/domain/event/service.go:719-728 | the whole queue gives each member the earlier of the arrival times of its halves |
| BatchSplit.SplittingCanStoreTwice | internal/domain/event/service.go:719-728 | two scans of one member around the midpoint of two stagings of a storable event: sent as two batches they store strictly more |
| SyncProtocol.StepKeepsInv | internal/domain/event/service.go:782-819 | each single insert, recount or count write of any device keeps the protocol's invariant |
| SyncProtocol.InterleavedSync | internal/domain/event/service.go:782-819 | in every interleaving each key is stored once and never overwritten, the devices together report exactly the new ones, the published count is never above the true one, and finished devices lost nothing |
| SyncProtocol.InterleavingDoesNotMatter | internal/domain/event/service.go:782-819 | finished runs over batches asking for the same keys end with the same keys |
| SyncRuns.LoneSyncIsARun | internal/domain/event/service.go:782-819 | an insert left alone is a run of the protocol, with the same store and counters and an exact published count |
| SyncRuns.LastWriteDecides | internal/domain/event/service.go:808-819 | the published count is what the last device to write had counted, and it is exact if and only if no record of the event was stored after that recount |
| SyncRuns.PublishedCountExactly | internal/domain/event/service.go:808-819 | every finished run has such a last write and recount, so the condition decides every finished run |
| SyncRuns.LastCounterLastWriter | internal/domain/event/service.go:808-819 | corollary: the published count is exact when the device that recounts last also writes last, as when syncs are served one at a time |
| SyncRuns.PublishedCountMayLag | internal/domain/event/service.go:808-819 | a run of two devices that ends with one attendee published and two stored |
| SyncRefinement.SyncIsARun | internal/domain/event/service.go:683-845 | the whole call agrees with the protocol's run of one device over the documents it builds: same store, same counters, same published count |
| SyncRefinement.InterleavedRefinesAtomic | internal/domain/event/service.go:683-845 | every finished interleaving of several calls stores the keys that serving them one after the other stores |
| SyncRefinement.ScheduleDoesNotMatter | internal/domain/event/service.go:674-845 | interleaving, order, repetition and serving time together do not change which keys steady requests store |
| FollowUp.FollowUpService.Record | internal/domain/discipleship/service.go:122-247 | places a member at a stage, keeps the history a chain of real moves that grows by one only when the stage changes, and creates the follow-up task with its owner and deadline, or names the refusal |
| FollowUp.FollowUpService.Touch | internal/domain/discipleship/service.go:320-343 | a whole call records the first touch once and leaves a recorded one; a stranger cannot tell the task exists |
| FollowUp.FollowUpService.Close | internal/domain/discipleship/service.go:359-399 | an unknown or still open status is refused and an absent one is done; only an open task is closed, with an outcome, a closing time and a first touch |
| FollowUp.FollowUpService.Reassign | internal/domain/discipleship/service.go:402-420 | only an open task changes owner, and never to nobody |
| FollowUp.NamesExactly | internal/domain/discipleship/service.go:359-366 | the names of stages and statuses are read back exactly, and a close takes exactly the three closing statuses, or none for done |
| FollowUp.Deadlines | internal/domain/discipleship/discipleship.go:257-271 | the days allowed for each stage |
| FollowUp.FollowUpService.EscalateOverdue | internal/domain/discipleship/escalation.go:58-120 | one undisturbed sweep escalates what its query found, passes over failing lookups, and reports what it changed |
| FollowUp.FindOverdue | internal/domain/discipleship/escalation.go:62-74 | the bounded query answers at most a hundred overdue tasks, none of the others being due sooner |
| FollowUp.DueListMeaning | internal/domain/discipleship/escalation.go:62-74 | only open, untouched, late tasks are listed, all of them up to a hundred, otherwise the earliest hundred |
| FollowUp.SweepHandsOver | internal/domain/discipleship/escalation.go:76-118 | what becomes of each task found: handed over to a supervisor other than its owner, escalated in place without one, left alone when the lookup fails |
| FollowUp.SweepReports | internal/domain/discipleship/escalation.go:76-118 | the reported numbers are those of the tasks escalated and of the tasks handed over |
| FollowUp.SweepProgress | internal/domain/discipleship/escalation.go:47-120 | with no failing lookup a sweep takes exactly its tasks off the overdue list, a hundred or all, earliest deadlines first |
| FollowUp.SweepsDrain | internal/domain/discipleship/escalation.go:47-120 | without an escalator n undisturbed sweeps leave the backlog less 100n, or nothing |
| FollowUp.EscalatedInTheEndExactly | internal/domain/discipleship/escalation.go:58-120 | with an escalator, an overdue task whose lookup answers is escalated within some number of sweeps, however ties fall, if and only if fewer than a hundred overdue tasks with failing lookups are due no later |
| FollowUp.SweepSparesTouched | internal/domain/discipleship/escalation.go:62-74 | an undisturbed sweep leaves touched, closed and not yet due tasks exactly as they are |
| FollowUpProtocol.StepKeepsInv | internal/domain/discipleship/escalation.go:100-118 | each read or write of any sweeper or volunteer keeps owners, closing facts and the escalation count |
| FollowUpProtocol.EscalationIsCountedOnce | internal/domain/discipleship/escalation.go:100-118 | in every interleaving the sweeps together report exactly as many escalations as tasks bear one, every task has an owner, and every closed one an outcome, a closing time and a first touch |
| FollowUpProtocol.TasksMoveForward | internal/domain/discipleship/service.go:320-420 | in every interleaving a task leaves the open state at most once, never comes back from closed, and keeps its one escalation time |
| FollowUpProtocol.EscalationWasDue | internal/domain/discipleship/escalation.go:62-105 | every escalation goes back to a read of its own sweep at which the task was open, untouched and past its deadline |
| FollowUpProtocol.TouchedEscalationExactly | internal/domain/discipleship/escalation.go:62-105 | a sweep's write to a task still open escalates it, and the task bears a touch then if and only if some touch was written strictly between that sweep's read and this write |
| FollowUpProtocol.TouchedTaskMayEscalate | internal/domain/discipleship/escalation.go:100-105 | a run in which a touch between a sweep's read and write does not stop the escalation |
| FollowUpProtocol.FirstTouchMovedExactly | internal/domain/discipleship/service.go:320-399 | a touch, or a close that read the task untouched, replaces an earlier first touch if and only if another touch or close of the task was written between its own read and its write |
| FollowUpProtocol.FirstTouchStands | internal/domain/discipleship/service.go:320-420 | no step but the write of a touch or a close ever changes a first touch |
| FollowUpProtocol.OutcomeReplacedExactly | internal/domain/discipleship/service.go:359-399 | a close replaces another outcome if and only if another close of the task was written between its own read and its write |
| Hierarchy.ChurchTree.SetParent | internal/domain/church/church.go:597-642 | terminates on any stored data, cyclic data included, and refuses exactly when the walk meets the child or comes back to a cursor |
| Hierarchy.MoveHappens | internal/domain/church/church.go:626-641 | a stored church whose re-parenting is not refused then has that parent and no other row changes; in every other case none does |
| Hierarchy.DecodedId | internal/domain/church/church.go:626-633 | an id decodes if and only if it is 24 hexadecimal digits, and then to the same digits in lower case |
| Hierarchy.CycleIffMeets | internal/domain/church/church.go:602-624 | with stored ids, giving a church a parent closes a cycle if and only if walking up from that parent meets the church |
| Hierarchy.RefusedIffCyclic | internal/domain/church/church.go:597-624 | on an acyclic hierarchy safely spelled re-parentings are refused if and only if they would close a cycle |
| Hierarchy.AcyclicIffSafelySpelled | internal/domain/church/church.go:597-642 | a call keeps every acyclic hierarchy acyclic if and only if its two ids are safely spelled, a condition on the two texts alone |
| Hierarchy.RunKeepsAcyclic | internal/domain/church/church.go:597-642 | over every run of foundings and safely spelled calls the hierarchy stays acyclic |
| Slugs.Slugify | internal/domain/church/church.go:529-544 | the builder loop with its flag gives the lower-case words of the name joined by single hyphens |
| Slugs.SlugMeetsPattern | internal/domain/church/church.go:452-454 | a made slug always meets the public pattern, and is empty if and only if the name has no letter or digit |
| Slugs.SlugFixpoint | internal/domain/church/church.go:37 | a text meets the public pattern if and only if it is a non-empty text that making a slug leaves as it is |
| Slugs.SlugIsRoutedBack | internal/service/hosttenant.go:67-99 | the host made of a slug and the base domain is read back as that slug |
| Slugs.NamesUnderBase | internal/service/hosttenant.go:86-99 | the base domain names no slug, and a name under it does if and only if it has one label more |
| Hostnames.NormaliseHostname | internal/domain/customdomain/customdomain.go:194-253 | the step-by-step rewriting and label loop accept exactly the hostnames, and return them in stored form |
| Hostnames.NormaliseFixpoint | internal/domain/customdomain/customdomain.go:194-253 | the outputs are exactly the dotted names of 1 to 63 character letter, digit and hyphen labels that are no address (sections 2.3.1 and 2.3.4 of RFC 1035), and each is its own normal form |
| Hostnames.LookupFindsStoredForm | internal/domain/customdomain/service.go:308-315 | the lookup of a Host header finds a stored hostname under the very text it was stored as |
| Hostnames.ClaimableIsNoSubdomain | internal/domain/customdomain/customdomain.go:255-287 | no hostname that may be claimed is read as a platform subdomain |
| Hostnames.ReservedExactly | internal/domain/customdomain/customdomain.go:255-287 | the hostnames nobody may claim are exactly the base domain, everything under it, localhost.localdomain and the eight endings set aside |
| Hostnames.AddressExactly | internal/domain/customdomain/customdomain.go:217-220 | the IPv4 addresses are exactly four numbers up to 255 in plain decimal with dots between |
| HostHeaders.PastedAddress | internal/domain/customdomain/customdomain.go:195-213 | a pasted address is taken for its host, whatever scheme, letter case, path and surrounding space |
| HostHeaders.WrittenHeader | internal/domain/customdomain/service.go:308-315 | in any letter case and surrounding space, with a final dot or a port, a hostname is looked up as it is stored |
| HostHeaders.SlugIsUnderBase | internal/service/hosttenant.go:67-99 | though the subdomain reader and the lookup strip a header in different orders, a header in which the one finds a slug is looked up by the other under the base domain, or as no hostname at all |
| Domains.DomainService.Claim | internal/domain/customdomain/service.go:84-145 | stores one pending domain under an unused, unreserved hostname, or names the first refusal and changes nothing |
| Domains.DomainService.Verify | internal/domain/customdomain/service.go:147-213 | activates a domain exactly when the published records hold its own token, and otherwise records the failure without losing an earlier proof |
| Domains.ContainsToken | internal/domain/customdomain/service.go:231-246 | a value matches up to case, surrounding space and quotes |
| Domains.HoldsTokenExactly | internal/domain/customdomain/service.go:231-246 | the token is found if and only if some published value is the token in some letter case, with only quotes and then space around it |
| Domains.SoundMeans | internal/domain/customdomain/service.go:84-213 | in every reachable store a domain is active or suspended if and only if it was verified, a verified one was seen to publish its own token, and hostnames are claimable and unique |
| Domains.DomainService.Release | internal/domain/customdomain/service.go:283-297 | removes the caller's own domain, freeing its name, and no other |
| Domains.DomainService.SuspendUnentitled | internal/domain/customdomain/service.go:348-399 | pauses exactly the active domains of missing or unentitled churches, completes if and only if every lookup answers, then leaves none of theirs active, counts what it changed, and keeps the invariant wherever it stops |
| Domains.DomainService.Restore | internal/domain/customdomain/service.go:401-434 | only a domain proven before comes back, without a new proof |
| Domains.DomainService.ChurchFor | internal/domain/customdomain/service.go:301-329 | answers the one church with an active domain of that name |
| Domains.DomainService.MayIssueCertificate | internal/domain/customdomain/service.go:331-346 | yes if and only if some active domain has the name |
| Domains.HeaderIsRouted | internal/service/hosttenant.go:67-166 | in every reachable store a Host header as it arrives, with a port, capitals, spaces or a final dot, leads to a church's own site if and only if that church has the name it is looked up by active and can be read; a reserved platform name never does |
| Domains.HostnameIsRouted | internal/service/hosttenant.go:109-166 | whatever the configured base domain, a hostname sent bare leads to a church's own site if and only if that church has it active and can be read |
| Domains.CaptureExactly | internal/service/hosttenant.go:115-132 | an active record made outside `Claim` captures its host if and only if the host names no subdomain or a reserved one |
| Domains.PlatformHostCapture | internal/service/hosttenant.go:67-132 | read off the name: under the base domain such a record captures exactly the base domain, the names two or more labels below it, and the reserved slugs |
| Domains.ApiHostIsCaptured | internal/service/hosttenant.go:124-126 | api.altaros.com cannot be claimed, yet an active record for it is served |
| Domains.SuspensionIsReversible | internal/domain/customdomain/service.go:348-434 | whatever a sweep made of an active domain, `Restore` needs no new proof, gives it back as it was but for the activation time, and keeps names unique and proofs on record |
| Otp.OtpStore.IssueCode | internal/domain/auth/otp.go:114-141 | a new code replaces the old one and clears its attempts, unless the resend window is running |
| Otp.OtpStore.VerifyCode | internal/domain/auth/otp.go:143-181 | counts before comparing, clears the keys on success and on too many attempts, and touches no other church and phone |
| Otp.EveryRunIsProper | internal/domain/auth/otp.go:114-181 | over every run of one key: issues at least 60 seconds apart, at most five comparisons and one acceptance for each code, only of the latest code and only within five minutes |
| Otp.EveryAnswerIsExpected | internal/domain/auth/otp.go:114-181 | over every run each answer is the one the log calls for: issued unless a code was in the last minute; no code if none was issued, it is spent or five minutes old; too many after five comparisons; otherwise accepted if it is the code and incorrect if not |
| Otp.NamespaceSharedExactly | internal/domain/auth/otp.go:61-89 | two pairs of a colon-free church id and any phone share keys if and only if they are equal or one is under no church and its phone spells out the other pair |
| Otp.PairsAreSeparate | internal/domain/auth/otp.go:61-181 | a pair whose keys no other pair of the run has is answered as if it were alone and within all limits |
| Otp.PairsSeparateExactly | internal/domain/auth/otp.go:61-181 | two different pairs are kept apart over every run of their calls, each as if alone and within its own limits, if and only if they do not clash |
| Otp.SharedRunDiffers | internal/domain/auth/otp.go:61-77 | for clashing pairs: one is issued a code, the other submits it, and the first is then answered that there is none, where alone it would have been accepted |
| Otp.EveryKeyIsProper | internal/domain/auth/otp.go:114-181 | over every run of the whole store, whoever calls, the limits on spacing, attempts, acceptance and age hold for each key |
| Otp.EveryKeyAnswerIsExpected | internal/domain/auth/otp.go:114-181 | and so for each key in every run of the whole store |
| Consent.ConsentService.Append | internal/domain/consent/consent.go:187-242 | a grant or a revocation appends one record and never changes another |
| Consent.ConsentService.IsGranted | internal/domain/consent/consent.go:244-274 | the newest record about the member and purpose decides, and without one the purpose's default |
| Consent.ConsentService.FilterAllowed | internal/domain/consent/consent.go:276-321 | the batched answer is the pointwise filter of the input by `IsGranted`, order and repeats kept |
| Consent.CurrentIsNewest | internal/domain/consent/consent.go:256-265 | the record in force is about the member and purpose and no other such record is newer; there is none only if no record is |
| Consent.Defaults | internal/domain/consent/consent.go:68-80 | without a record, communications and AI processing are refused and membership and giving allowed |
| Consent.AllowedExactly | internal/domain/consent/consent.go:308-321 | the places of the audience let through are exactly those whose member has a grant in force, in order |
| Consent.FirstIsCurrent | internal/domain/consent/consent.go:290-313 | in any newest-first listing the first record met for a member is the one in force |
| Consent.LastDecisionCounts | internal/domain/consent/consent.go:198-274 | with increasing stamps an appended decision is in force for its member and purpose and every other answer is unchanged |
| Consent.SameRecordsSameAnswers | internal/domain/consent/consent.go:244-274 | the order in which records are stored does not change any answer |

## Left out

- Instants are whole seconds counted from 0001-01-01 in UTC; fractions of a second, in stored times and in UNTIL texts, are not modelled.
- INTERVAL stepping and durations use unbounded integers; the 64-bit bound on numbers is kept where they are parsed.
- Upper and lower case follow Unicode only as far as an ASCII comparison can see it.
- COUNT, UNTIL, windows and limits are proved against the first 5000 steps, as the code scans; later members are not found there either.
- Only rules that parse are expanded (INTERVAL at least 1), which is every rule the service reads.
- MongoDB, Redis, DNS, the roster, the org chart and church lookups are parameters or maps with atomic single operations; their transport errors other than those modelled are left out, and error texts are collapsed into cases.
- One church per model: the tenant filter of the collections is not modelled, except for the owner of a custom domain.
- Concurrent calls of SetParent, Respond, Claim's three-domain count, Verify's wait for DNS, SuspendUnentitled and one-time-code checks: each call is one step.
- Titles, notes, locations and other copied fields of events, tasks and domains.
- FollowUp.FollowUpService.Record: does not undo the journey move when the task is then refused for want of an owner, because the code does not either.
- Domains.HoldsTokenExactly: does not cover tokens that begin or end with a space or a quote, because the service makes none.
- Domains.HeaderIsRouted: does not cover a base domain configured with a port, a final dot or characters outside names, because such a base is a deployment error the code does not check.
- Rsvp.RunFitsExactly: does not model deleting an event, because its answers go with it.
- Events.Normalise: does not model the title and the capacity, because they do not touch the dates.
- Domains.DomainService.Verify: does not model the text of a lookup error, because only its presence matters.
- Hostnames.NormaliseHostname: does not model IPv6 literals separately, because a colon is refused by the label check anyway.
- Slugs.SlugIsRoutedBack: does not cover a slug and base that together spell an IPv4 address, because the code refuses those.
- Hashing of one-time codes is taken to be free of collisions; random codes, tokens and ids are parameters.
- The host cache (`internal/service/hosttenant.go:193-222`), `Occurs`, `CheckIn` on its own (a sync of one row), attendance listings: easy members beside those proved.
- Moving a whole event series (`Update`, `Delete`) between syncs: the lemmas on repeated syncs fix the event.
- HTTP handlers, authentication, messaging, giving, analytics and the front ends.
