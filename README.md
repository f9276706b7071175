# Campus event backend: participation workflow and reports

This project models the core of a campus-event management backend. Colleges
host events, and students register for them, are marked present and leave
feedback. Every mutating HTTP route is modelled twice:

- a pure transition function `Op(d, ...)` over a database snapshot `Db`, which
  returns a `Step` holding the outcome and the new snapshot;
- a method of the class `Store.Store`, which holds the six tables as fields
  and changes them in place.

The outcome is `Ok(value)`, or else `NotFound`, `Conflict`, `BusinessRule`,
`Validation` or `ServerError`. These stand for the HTTP 404, 409, 400 and 422
answers and for an exception the route does not catch, which gives HTTP 500. The route's
checks happen in the route's own order, because that order decides which error
a caller sees. Each method's `ensures` ties its result and its new state to the
function. All the properties are proved about the functions:

- what each check answers;
- what exactly a success changes;
- which database constraints each operation keeps;
- facts that span several calls.

The reports (`routes/reports.py`) and the summaries in the attendance and
feedback routes are pure functions of one snapshot. Rates are exact `real`
numbers.

The constraints every reachable snapshot satisfies (`Models.Invariants`) are:

- primary keys are unique;
- college names and student emails are unique;
- a registration, an attendance and a feedback are each unique per (student, event);
- students and events reference a college, and registrations reference a student and an event;
- every attendance and every feedback has a registration of the same pair, of either status;
- ratings lie in 1..5, capacities are at least 1, start times precede end times, and years lie in 1..4.

Three constraints look true but are not kept. Module `Scenarios` shows a
permitted step that breaks each one, from a valid snapshot:

- Updating an event can lower its capacity below its confirmed registrations.
- Deleting an attendance leaves the feedback that it allowed.
- Up to and including the event day, an attended registration can be
  cancelled, so the attendance outlives every confirmed registration of the pair.

Modules follow the route files:

- `Tables`: generic tables, meaning keyed rows, insert under a fresh key,
  in-place update, delete and filtered counts.
- `Models`: records, enums, field ranges, the shared queries and the invariants.
- `Registrations`, `Attendances`, `Feedbacks`, `Events`, `Students` and
  `Colleges`: one module per route file.
- `Reports`: the seven report endpoints.
- `Sorting`: a stable descending sort, like Python's `list.sort(reverse=True)`.
- `Scenarios`: the counterexamples.
- `Store`: the stateful class.

The clock is `today`, a day number, and `now`, in seconds. Both are fields of
the store that the caller sets with `SetClock`. They replace `date.today()`
and `datetime.now()`.

## Model

| member | source | states |
|---|---|---|
| Store.Store.constructor | models.py:6-106 | A new store has six empty tables, which satisfy every constraint, and the given clock. |
| Store.Store.SetClock | routes/registrations.py:44 | Moving the clock changes no table. |
| Store.Store.Register | routes/registrations.py:18-83 | The result and the new tables are those of Registrations.Register at the clock's today and now, and the constraints are kept. |
| Store.Store.CancelRegistration | routes/registrations.py:121-148 | The result and the new tables are those of Registrations.CancelRegistration, and the constraints are kept. |
| Store.Store.DeleteRegistration | routes/registrations.py:151-174 | The result and the new tables are those of Registrations.DeleteRegistration, and the constraints are kept. |
| Store.Store.MarkAttendance | routes/attendances.py:18-77 | The result and the new tables are those of Attendances.MarkAttendance, and the constraints are kept. |
| Store.Store.BulkMarkAttendance | routes/attendances.py:176-243 | The loop over the ids, with its success count, error list and pending rows, computes exactly Attendances.BulkMarkAttendance. It commits once, and it keeps the constraints when the ids are distinct. |
| Store.Store.DeleteAttendance | routes/attendances.py:111-122 | The result and the new tables are those of Attendances.DeleteAttendance, and the constraints are kept. |
| Store.Store.SubmitFeedback | routes/feedback.py:17-68 | The result and the new tables are those of Feedbacks.SubmitFeedback, and the constraints are kept. |
| Store.Store.UpdateFeedback | routes/feedback.py:110-138 | The result and the new tables are those of Feedbacks.UpdateFeedback, and the constraints are kept. |
| Store.Store.DeleteFeedback | routes/feedback.py:141-152 | The result and the new tables are those of Feedbacks.DeleteFeedback, and the constraints are kept. |
| Store.Store.CreateEvent | routes/events.py:21-49 | The result and the new tables are those of Events.CreateEvent, and the constraints are kept. |
| Store.Store.UpdateEvent | routes/events.py:102-139 | The result and the new tables are those of Events.UpdateEvent, and the constraints are kept. |
| Store.Store.DeleteEvent | routes/events.py:142-160 | The result and the new tables are those of Events.DeleteEvent, and the constraints are kept. |
| Store.Store.CancelEvent | routes/events.py:195-214 | The result and the new tables are those of Events.CancelEvent, and the constraints are kept. |
| Store.Store.CreateStudent | routes/students.py:11-33 | The result and the new tables are those of Students.CreateStudent, and the constraints are kept. |
| Store.Store.UpdateStudent | routes/students.py:74-110 | The result and the new tables are those of Students.UpdateStudent, and the constraints are kept. |
| Store.Store.DeleteStudent | routes/students.py:113-131 | The result and the new tables are those of Students.DeleteStudent, and the constraints are kept. |
| Store.Store.CreateCollege | routes/colleges.py:11-25 | The result and the new tables are those of Colleges.CreateCollege, and the constraints are kept. |
| Store.Store.UpdateCollege | routes/colleges.py:55-82 | The result and the new tables are those of Colleges.UpdateCollege, and the constraints are kept. |
| Store.Store.DeleteCollege | routes/colleges.py:85-102 | The result and the new tables are those of Colleges.DeleteCollege, and the constraints are kept. |
| Tables.IndexOf | routes/registrations.py:123 | The `.first()` lookup by key is the position of the first row with that key, or -1 exactly when no row has it. |
| Tables.Get | routes/events.py:165 | A lookup finds a value exactly when the key is present, and that row is in the table. |
| Tables.FreshId | models.py:9 | A new row's key is positive and not in use. |
| Tables.Insert | routes/registrations.py:79-83 | Adding a row appends it under a fresh key, keeps every earlier row, and keeps keys unique. |
| Tables.RemoveAt | routes/registrations.py:172-173 | Deleting a row leaves exactly the other rows, under unique keys. |
| Tables.UpdateAt | routes/registrations.py:143-144 | Assigning to a row's columns keeps its key and position and every other row. |
| Tables.Filter | routes/registrations.py:218-223 | A filtered query holds exactly the rows that pass, and no more rows than the table. |
| Tables.FilterConcat | routes/reports.py:44-48 | Filtering distributes over concatenation. |
| Tables.CountSplit | routes/reports.py:54 | A count with two disjoint cases is the sum of their counts. |
| Tables.PyPrefix | routes/reports.py:280 | Python's `xs[:n]` keeps the first n elements, or for a negative n drops that many from the end. |
| Models.Percentage | routes/attendances.py:163 | A rate is part over whole times 100, 0 on a zero whole, never negative, and at most 100 when the part is at most the whole. |
| Models.Lower | routes/events.py:81-85 | Lower-casing keeps the length and lower-cases each ASCII letter. |
| Models.EmptyDbValid | models.py:6-106 | The empty database satisfies every constraint. |
| Registrations.Register | routes/registrations.py:18-83 | A refusal changes nothing. A success appends exactly the returned row to the registrations and changes nothing else. |
| Registrations.RegisterOutcomes | routes/registrations.py:20-76 | A missing student, then a missing event, is NotFound. A non-active or past event is BusinessRule, and an event dated today is accepted. An existing pair of either status, or a full event, is Conflict. |
| Registrations.RegisterAddsOne | routes/registrations.py:64-83 | A success adds one confirmed row under a fresh key. The event's confirmed count rises by exactly one and stays within capacity. Every other event's count is unchanged. |
| Registrations.RegisterPreserves | routes/registrations.py:50-83 | Register keeps every database constraint. |
| Registrations.RegisterAgainConflicts | routes/registrations.py:51-62 | Registering the same pair again after a success is Conflict. |
| Registrations.CancelRegistration | routes/registrations.py:121-148 | A refusal changes nothing. A success rewrites in place only the status of that registration, to cancelled. |
| Registrations.CancelEffect | routes/registrations.py:123-144 | A missing id is NotFound. A cancelled record is BusinessRule. A confirmed one is BusinessRule exactly when its event's date is before today, and a ServerError when its event is missing, since the route then reads a date off None. A success means the record was confirmed, and it sets only that record's status to cancelled. The record is kept. |
| Registrations.CancelFreesOne | routes/registrations.py:143-144 | A successful cancel lowers the event's confirmed count by exactly one. |
| Registrations.CancelPreserves | routes/registrations.py:143-144 | A cancel keeps every database constraint. |
| Registrations.CancelTwiceFails | routes/registrations.py:130-134 | Cancelling the same registration a second time is BusinessRule. |
| Registrations.CancelledSlotNotRetaken | routes/registrations.py:51-62 | After a cancel, registering the same pair answers exactly what it did before the cancel, and never succeeds. |
| Registrations.DeleteRegistration | routes/registrations.py:151-174 | A refusal changes nothing. A success removes exactly that registration. |
| Registrations.DeleteRegistrationGuard | routes/registrations.py:153-172 | A missing id is NotFound. A record whose student is missing is a ServerError, since the guard reads that student's records. Otherwise delete is Conflict exactly when the student has an attendance or a feedback for the same event. Records for other events do not block it. A success removes only that row. |
| Registrations.DeleteRegistrationPreserves | routes/registrations.py:160-172 | The guard keeps every attendance and every feedback backed by a registration, and so keeps every constraint. |
| Registrations.ResolvedRegistrationsNeverFail | routes/registrations.py:137 | When every reference resolves, cancel and delete never end in a ServerError. |
| Registrations.EventRegistrationsAsWritten | routes/registrations.py:204-231 | The listing as written. available_spots counts the confirmed rows of the status-filtered list. A missing event is a ServerError, because the parameter `status` hides the module that holds the 404 code. |
| Registrations.AsWrittenCancelledFilter | routes/registrations.py:220-231 | Under the status filter "cancelled", the route as written reports the full capacity as available. |
| Registrations.AsWrittenMisreportsSpots | routes/registrations.py:218-231 | In a valid database with one confirmed booking on a capacity-2 event, the route as written reports 2 spots where 1 is left. |
| Registrations.AsWrittenAgreesUnfiltered | routes/registrations.py:220-231 | With no status filter, or with the filter "confirmed", the route as written agrees with the corrected listing on every existing event. On a missing event it is a ServerError. |
| Registrations.AsWrittenMissingEvent | routes/registrations.py:204-214 | For every status filter, the route as written is a ServerError exactly when the event is missing, where the corrected listing answers NotFound. |
| Registrations.AsWrittenCrashesOnMissingEvent | routes/registrations.py:204-214 | In a valid database, asking for the registrations of an event that does not exist is a ServerError as written, and NotFound when corrected. |
| Registrations.EventRegistrations | routes/registrations.py:205-231 | Specified by Registrations.EventRegistrationsSpots: the corrected listing of an event's registrations, whose spots ignore the status filter. |
| Registrations.EventRegistrationsSpots | routes/registrations.py:218-231 | For every status filter, the corrected spots are capacity minus the event's confirmed registrations. The listed rows are exactly the event's rows that pass the filter, and the total is their number. |
| Attendances.MarkAttendance | routes/attendances.py:18-77 | A refusal changes nothing. A success appends exactly the returned attendance and changes nothing else. |
| Attendances.MarkOutcomes | routes/attendances.py:20-70 | A missing student, then a missing event, is NotFound. No confirmed registration is BusinessRule. An existing attendance is Conflict, even for a future event. Otherwise a future date is BusinessRule. A success happens exactly when the registration is confirmed, nothing is marked yet, and the date is today or earlier. |
| Attendances.MarkCancelledRefused | routes/attendances.py:37-49 | In a valid database, the holder of a cancelled registration is refused with BusinessRule. |
| Attendances.MarkAddsOne | routes/attendances.py:72-77 | A success adds one attendance for the pair under a fresh key, and the event's attendance count rises by one. |
| Attendances.MarkPreserves | routes/attendances.py:36-77 | Marking keeps every database constraint. |
| Attendances.BulkMarkAttendance | routes/attendances.py:176-243 | A missing event or a future date refuses the whole batch and changes nothing. Otherwise only the attendances change, to the loop's result. |
| Attendances.BulkOutcomes | routes/attendances.py:182-195 | A missing event is NotFound and a future event is BusinessRule, both before any id is looked at. Otherwise the batch succeeds. No table besides attendances ever changes. |
| Attendances.BulkLoopOutcomes | routes/attendances.py:197-241 | Every id yields exactly one outcome, so the success count plus the error count is the number of ids. The new rows are, in order, those of the qualifying ids, after the old rows. The errors are, in order, those of the other ids, each with its reason. |
| Attendances.BulkLoop | routes/attendances.py:197-235 | Specified by Attendances.BulkLoopOutcomes: the loop over the ids, each one checked against the state before the batch. |
| Attendances.BulkLoopAdded | routes/attendances.py:200-230 | The success count is the number of qualifying ids. The old rows stay first, and new row j is the attendance of the j-th qualifying id. |
| Attendances.BulkLoopErrors | routes/attendances.py:200-233 | Every id is either a success or an error. The errors are, in order, those of the non-qualifying ids, not registered or already marked. |
| Attendances.BulkLoopKeeps | routes/attendances.py:200-235 | With distinct ids, the rows keep unique keys and unique pairs. Every new row belongs to the event and to a qualifying id of the batch. |
| Attendances.BulkMarkPreserves | routes/attendances.py:200-235 | With distinct ids, a bulk mark keeps every database constraint. |
| Attendances.DeleteAttendance | routes/attendances.py:111-122 | A refusal changes nothing. A success removes exactly that attendance. |
| Attendances.DeleteAttendanceEffect | routes/attendances.py:113-121 | A missing id is NotFound. Otherwise exactly that record is removed, with no dependency check. |
| Attendances.DeleteAttendancePreserves | routes/attendances.py:110-122 | Deleting an attendance keeps every database constraint. |
| Attendances.EventAttendancesRate | routes/attendances.py:144-173 | For an existing event, the summary lists exactly its attendances. It counts every one of them against the confirmed registrations. The percentage is attended over confirmed times 100, or 0. |
| Attendances.EventAttendances | routes/attendances.py:144-173 | Specified by Attendances.EventAttendancesRate: the attendance summary of one event. |
| Feedbacks.SubmitFeedback | routes/feedback.py:17-68 | A refusal changes nothing. A success appends exactly the returned feedback. |
| Feedbacks.SubmitOutcomes | routes/feedback.py:19-61 | A rating outside 1..5 is Validation. Then a missing student, then a missing event, is NotFound. No attendance is BusinessRule, and existing feedback is Conflict. A success happens exactly when all checks pass. |
| Feedbacks.SubmitAddsOne | routes/feedback.py:63-68 | A success adds the one feedback for the pair, and the pair then has no other. |
| Feedbacks.SubmitPreserves | routes/feedback.py:35-68 | Submitting keeps every database constraint. |
| Feedbacks.UpdateFeedback | routes/feedback.py:110-138 | A refusal changes nothing. A success rewrites exactly that record in place. |
| Feedbacks.UpdateEffect | routes/feedback.py:116-134 | A rating outside 1..5 is Validation, and then a missing id is NotFound. A success keeps the record's student, event and time, writes the rating, and writes the comments only when they are supplied. |
| Feedbacks.UpdatePreserves | routes/feedback.py:131-134 | An update keeps every database constraint. |
| Feedbacks.DeleteFeedback | routes/feedback.py:141-152 | A refusal changes nothing. A success removes exactly that record. |
| Feedbacks.DeleteFeedbackEffect | routes/feedback.py:143-151 | A missing id is NotFound. Otherwise exactly that record is removed. |
| Feedbacks.DeleteFeedbackPreserves | routes/feedback.py:141-152 | Deleting feedback keeps every database constraint. |
| Feedbacks.FeedbackListingRange | routes/feedback.py:83-93 | With both bounds non-zero, the listing holds exactly the records with min <= rating <= max that pass the id filters. |
| Feedbacks.FeedbackListingZeroMax | routes/feedback.py:92-93 | A max_rating of 0 is falsy and applies no bound. |
| Feedbacks.FeedbackListing | routes/feedback.py:70-96 | Specified by Feedbacks.FeedbackListingRange and Feedbacks.FeedbackListingZeroMax: the feedback listing under its four filters. |
| Feedbacks.Ratings | routes/feedback.py:197 | The ratings list has one entry per record, in order. |
| Feedbacks.Mean | routes/feedback.py:198 | The mean times the number of ratings is their sum, and the mean of no ratings is 0. |
| Feedbacks.MeanBounds | routes/feedback.py:198 | The mean of ratings within 1..5 lies within 1..5. |
| Feedbacks.BucketsPartition | routes/feedback.py:200-203 | The five counts of ratings within 1..5 add up to the number of ratings. |
| Feedbacks.BucketsFacts | routes/feedback.py:200-203 | The distribution has exactly keys 1..5, each the count of equal ratings, and together they make the total. |
| Feedbacks.EventSummaryEmpty | routes/feedback.py:176-194 | A missing event is NotFound. An event without feedback reports total 0, average 0 and an empty distribution. |
| Feedbacks.EventSummaryStats | routes/feedback.py:196-213 | With feedback, the summary lists exactly the event's feedback. The average is the mean rating, within 1..5. The distribution has keys 1..5, each counting equal ratings, and they sum to the total. |
| Feedbacks.EventFeedbackSummary | routes/feedback.py:174-213 | Specified by Feedbacks.EventSummaryEmpty and Feedbacks.EventSummaryStats: one event's feedback summary. |
| Feedbacks.EventIdsOf | routes/feedback.py:243 | The distinct event ids are exactly those of some record, and there are no more of them than records. |
| Feedbacks.OverallStatisticsEmpty | routes/feedback.py:221-227 | No feedback gives total 0, average 0, no buckets and 0 events. |
| Feedbacks.OverallStatisticsRatings | routes/feedback.py:229-240 | With feedback, all five buckets are present, zero when unused, and they sum to the total. The average is the mean rating, within 1..5. |
| Feedbacks.OverallStatisticsEvents | routes/feedback.py:242-243 | events_with_feedback is the number of distinct event ids, at least 1 and at most the total. |
| Feedbacks.OverallFeedbackStatistics | routes/feedback.py:216-249 | Specified by the three Feedbacks.OverallStatistics lemmas: the statistics over all feedback. |
| Events.CreateEvent | routes/events.py:21-49 | A refusal changes nothing. A success appends exactly the returned event. |
| Events.CreateOutcomes | routes/events.py:23-49 | A capacity below 1 is Validation, and then a missing college is NotFound. A date before today, or a start not before the end, is BusinessRule. A new event is active, has the given capacity or 100, and is stamped with now. |
| Events.CreatedEventEmpty | routes/events.py:45-49 | In a consistent database, a new event has no registrations. |
| Events.CreatePreserves | routes/events.py:45-49 | Creating an event keeps every database constraint. |
| Events.UpdateEvent | routes/events.py:102-139 | A refusal changes nothing. A success rewrites exactly that event in place. |
| Events.UpdateEffect | routes/events.py:108-135 | A supplied capacity below 1 is Validation, and then a missing id is NotFound. A supplied past date, or start not before end, is BusinessRule. Each time falls back to the stored one. Only supplied fields change, status included. |
| Events.UpdatePreserves | routes/events.py:115-135 | An update keeps every database constraint, with no check of the capacity against registrations. |
| Events.DeleteEvent | routes/events.py:142-160 | A refusal changes nothing. A success removes exactly that event. |
| Events.DeleteEffect | routes/events.py:144-158 | A missing id is NotFound. The delete is Conflict exactly when a registration of any status exists for the event. |
| Events.DeletePreserves | routes/events.py:152-158 | The guard keeps every reference resolving, and so every constraint. |
| Events.CancelEvent | routes/events.py:195-214 | A refusal changes nothing. A success sets only that event's status, to cancelled. |
| Events.CancelEffect | routes/events.py:197-211 | A missing id is NotFound. A non-active event is BusinessRule. A success changes only the status, and the registrations are untouched. |
| Events.CancelPreserves | routes/events.py:204-211 | Cancelling keeps every database constraint. |
| Events.CancelledEventClosed | routes/events.py:204-211 | After a cancel, a second cancel is BusinessRule, and every registration for the event is BusinessRule. |
| Events.AvailabilityMatchesRegister | routes/events.py:163-192 | available_spots is capacity minus confirmed. is_available holds exactly when spots > 0 and the event is active. For a new pair, registration succeeds exactly when the event is available and not past. |
| Events.EventAvailability | routes/events.py:163-192 | Specified by Events.AvailabilityMatchesRegister: the spots are the capacity less the confirmed count, and the event is available exactly when spots remain and it is active. |
| Events.ListEventsMembers | routes/events.py:66-85 | An event is listed exactly when every given filter holds: AND, with an inclusive date range. A search matches the title or the description. |
| Events.ListEvents | routes/events.py:52-88 | Specified by Events.ListEventsMembers: the event listing under its filters. |
| Events.SearchFindsText | routes/events.py:81-85 | The search matches any occurrence of its text inside a longer text, whatever the case of ASCII letters. Lower-casing the search does not change what it matches. |
| Students.CreateStudent | routes/students.py:11-33 | A refusal changes nothing. A success appends exactly the returned student. |
| Students.CreateOutcomes | routes/students.py:13-33 | A year outside 1..4 is Validation. Then a missing college is NotFound, and an email in use is Conflict. |
| Students.CreatePreserves | routes/students.py:21-33 | Creating a student keeps email uniqueness and every other constraint. |
| Students.UpdateStudent | routes/students.py:74-110 | A refusal changes nothing. A success rewrites exactly that student in place. |
| Students.UpdateEffect | routes/students.py:80-106 | A missing id is NotFound. The college is checked only when it changes, and the email only when it changes. A success writes the supplied fields and keeps the rest. |
| Students.UpdatePreserves | routes/students.py:88-106 | An update keeps email uniqueness and the college reference. |
| Students.DeleteStudent | routes/students.py:113-131 | A refusal changes nothing. A success removes exactly that student. |
| Students.DeleteEffect | routes/students.py:115-129 | A missing id is NotFound. The delete is Conflict exactly when the student has a registration, attendance or feedback. |
| Students.DeletePreserves | routes/students.py:123-129 | The guard keeps every reference resolving, and so every constraint. |
| Students.StudentEventCounts | routes/students.py:143-152 | total_registrations counts the student's registrations of both statuses, and total_attendances counts all the attendances. The event lists hold exactly their events. |
| Students.GetStudentEvents | routes/students.py:134-152 | Specified by Students.StudentEventCounts: the events a student registered for and attended. |
| Colleges.CreateCollege | routes/colleges.py:11-25 | A refusal changes nothing. A success appends exactly the returned college. |
| Colleges.UpdateCollege | routes/colleges.py:55-82 | A refusal changes nothing. A success rewrites exactly that college in place. |
| Colleges.DeleteCollege | routes/colleges.py:85-102 | A refusal changes nothing. A success removes exactly that college. |
| Colleges.CreateOutcomes | routes/colleges.py:13-25 | A taken name is Conflict, and otherwise exactly one college is appended. |
| Colleges.CreatePreserves | routes/colleges.py:13-25 | Creating a college keeps name uniqueness and every other constraint. |
| Colleges.UpdateEffect | routes/colleges.py:61-78 | A missing id is NotFound. A taken name is Conflict only when the name changes. A success writes the name, and the other fields only when supplied. |
| Colleges.UpdatePreserves | routes/colleges.py:68-78 | An update keeps name uniqueness. |
| Colleges.DeleteEffect | routes/colleges.py:87-99 | A missing id is NotFound. The delete is Conflict exactly when a student or an event references the college. |
| Colleges.DeletePreserves | routes/colleges.py:94-102 | The guard keeps every reference resolving. |
| Colleges.GetCollege | routes/colleges.py:44-52 | A missing id is NotFound, and otherwise the result is the college with that id. |
| Colleges.SearchMembers | routes/colleges.py:37-38 | The search keeps exactly the colleges whose name contains the text. An absent or empty search keeps all. |
| Colleges.SearchColleges | routes/colleges.py:28-38 | Specified by Colleges.SearchMembers: the college listing under its name search. |
| Reports.ReportEventsMembers | routes/reports.py:29-41 | The event filters combine with AND, and the date bounds are inclusive. Zero ids filter nothing, and without filters every event is reported. |
| Tables.Map | routes/reports.py:43-65 | The loop that appends one row per event builds a list of the same length, whose row i is the row of event i. |
| Tables.MapMembers | routes/students.py:143-144 | A value is in the mapped list exactly when it is the image of some element, as in `[reg.event for reg in student.registrations]`. |
| Reports.RegistrationRowCounts | routes/reports.py:46-55 | total is confirmed plus cancelled, which is every registration of the event. available is capacity minus confirmed. |
| Reports.RegistrationReportRows | routes/reports.py:43-67 | There is one row per selected event, in order, with its counts. The spots agree with the availability route. |
| Reports.RegistrationReport | routes/reports.py:19-67 | Specified by Reports.RegistrationRowCounts and Reports.RegistrationReportRows: the registration report. |
| Reports.AttendanceReportRows | routes/reports.py:96-120 | A row is reported exactly for a selected event meeting the minimum rate, so lower rows are dropped. Its percentage is that of the event's attendance summary, and without a minimum every event has a row. |
| Reports.AttendanceReport | routes/reports.py:70-120 | Specified by Reports.AttendanceReportRows: the attendance report. |
| Reports.FeedbackReportMembers | routes/reports.py:149-175 | A row is reported exactly for a selected event that has feedback and whose mean meets the minimum. |
| Reports.FeedbackReportStats | routes/reports.py:156-175 | Each reported average lies in 1..5. Buckets 1..5 are all present and sum to the total. The rows agree with the event's feedback summary. |
| Reports.FeedbackReport | routes/reports.py:123-177 | Specified by Reports.FeedbackReportMembers and Reports.FeedbackReportStats: the feedback report. |
| Reports.FeedbackRowExample | routes/reports.py:156-166 | Ratings 5, 5 and 3 give a mean of 13/3 and buckets {1:0, 2:0, 3:1, 4:0, 5:2}. |
| Reports.TitlesResolve | routes/reports.py:210 | Under the invariants, each listed title is the title of the attendance's event. |
| Reports.ParticipationReportSound | routes/reports.py:187-223 | Every reported row belongs to a selected student who meets the minimum number of attendances. |
| Reports.ParticipationReportComplete | routes/reports.py:187-223 | Every selected student who meets the minimum has a row. |
| Reports.ParticipationReport | routes/reports.py:180-223 | Specified by Reports.ParticipationReportSound, Reports.ParticipationReportComplete and Reports.ParticipationRowFacts: the student participation report. |
| Reports.ParticipationRowFacts | routes/reports.py:200-221 | Registrations are counted regardless of status. events_attended has one entry per attendance. The rate is at most 100, and exactly 100 when every registration was attended. The college name is the student's. |
| Reports.AttendedCountIsEvents | routes/reports.py:201 | With one attendance per pair, a student's attendance count is the number of distinct events attended. |
| Reports.PopularityReportOrder | routes/reports.py:251-280 | The report is sorted by score, highest first, and no dropped row scores above a kept one. A non-negative limit keeps min(limit, n) rows. A large enough limit gives a permutation that keeps ties in scan order. |
| Reports.PopularityReport | routes/reports.py:226-280 | Specified by Reports.PopularityReportOrder and Reports.PopularityRowRating: the event popularity report. |
| Reports.ScoreExample | routes/reports.py:264 | 10 registrations, 8 attendances and an average of 4.0 score 10.4. |
| Reports.PopularityRowRating | routes/reports.py:261-275 | The average is reported exactly when the event has feedback, as the mean within 1..5. Without feedback the score counts it as 0. |
| Reports.SqlLimit | routes/reports.py:313 | SQL LIMIT keeps the first n rows, or all of them for a negative n. |
| Reports.TopActiveOrder | routes/reports.py:297-336 | The list is ordered by attendance count, highest first, and no student left out has more attendances than a listed one. The limit applies, and total_count is the list's length. |
| Reports.TopActiveStudents | routes/reports.py:283-342 | Specified by the four Reports.TopActive lemmas: the most active students. |
| Reports.TopActiveTitles | routes/reports.py:318-331 | Each listed count equals the number of listed titles. |
| Reports.TopActiveListed | routes/reports.py:297-313 | A student is listed exactly when their college exists and passes the college filter. Under a type restriction, the student also needs at least one counted attendance. |
| Reports.TopActiveCounted | routes/reports.py:291-320 | Without a type, or with a type no event has, every attendance of the student counts. With a type some event has, exactly the attendances at events of that type count. |
| Reports.DashboardRates | routes/reports.py:351-357 | Only confirmed registrations count, so the confirmed and cancelled counts make up all registrations. The attendance rate and the feedback rate are each part over whole times 100, or 0 on an empty whole. |
| Reports.DashboardDistribution | routes/reports.py:369-375 | The distribution has a key for exactly the types some event has, each with a positive count of its events. The six counts sum to total_events. |
| Reports.DashboardRecent | routes/reports.py:363-367 | The recent counts are at most the table sizes, and they equal them when every record is at most 30 days old. |
| Reports.DashboardAverage | routes/reports.py:359-389 | The average rating is 0 without feedback. Otherwise it is the overall statistics' average, within 1..5. |
| Reports.DashboardSummary | routes/reports.py:345-395 | Specified by the four Reports.Dashboard lemmas: the dashboard summary. |
| Sorting.SortDescCorrect | routes/reports.py:279 | The stable descending sort is ordered and is a permutation of its input, and equal keys keep their order. |
| Sorting.SortDesc | routes/reports.py:279 | The sorted list has the same length and the same elements as its input. Its order and stability are proved in Sorting.SortDescCorrect. |
| Scenarios.CapacityBelowConfirmed | routes/events.py:115-135 | From any valid database with two confirmed registrations, an update to capacity 1 succeeds and keeps the invariants. It leaves more confirmed registrations than places. |
| Scenarios.BothAttendedOverbooked | routes/events.py:115-135 | A concrete database in which updating the capacity to 1 leaves 2 confirmed registrations. |
| Scenarios.FeedbackOutlivesAttendance | routes/attendances.py:110-122 | Deleting the attendance behind a feedback succeeds and keeps the invariants. The feedback stays while the pair has no attendance. |
| Scenarios.BothAttendedDeleteAttendance | routes/attendances.py:110-122 | A concrete database in which a student's feedback outlives that student's deleted attendance. |
| Scenarios.AttendanceOutlivesConfirmation | routes/registrations.py:136-144 | Up to and including the event day, an attended confirmed registration can be cancelled. The attendance stays, and the pair has no confirmed registration left. |
| Scenarios.BothAttendedCancel | routes/attendances.py:155-163 | A concrete database in which that cancel leaves 2 attendances against 1 confirmed registration, so the attendance percentage is 200. |
| Scenarios.BothAttendedValid | models.py:58-106 | The concrete database satisfies every constraint. |

## Left out

- HTTP plumbing is not modelled: status codes, error messages, response models, dependency injection and routing. Each raise becomes an outcome tag.
- Sessions and transactions are not modelled. Every route commits at its end, and every database error except those the routes raise is out of scope. There is no concurrency: the routes take no locks, and check-then-insert races cannot be expressed in a sequential model.
- The clock is an input: `today` and `now` are store fields set by the caller. Timezones are not modelled, including the difference between the database's `func.now()` and the server's `datetime.now()`.
- Floats and `round(x, 2)` are not modelled. Rates, means and scores are exact reals, and the model stops at the unrounded value.
- The Pydantic range checks run before the handler, as `Validation`: rating in 1..5, capacity at least 1, and year in 1..4. `EmailStr`, `max_length` and an explicit `null` for a non-nullable update field are not modelled, because those are request-shape checks outside the handlers.
- Pagination (`skip`/`limit`) of the listing endpoints is not modelled.
- Result order of the modelled listings is not modelled: each keeps table order instead of the source's `ORDER BY`. This covers `Registrations.EventRegistrations` and its as-written form (`registration_date desc`, routes/registrations.py:223), `Attendances.EventAttendances` (`attended_at desc`, routes/attendances.py:153), `Events.ListEvents` (`event_date desc`, routes/events.py:87) and `Feedbacks.FeedbackListing` (`submitted_at desc`, routes/feedback.py:95). Their contracts speak of membership and counts only.
- The by-id getters other than `get_college` are not modelled. Neither are the plain registration and attendance listings, or the per-student listings in the registration, attendance and feedback routes. They are pure queries. `get_student_registrations` (routes/registrations.py:176-188) has the same `status` shadowing as the event listing, so a missing student there also ends in an uncaught error.
- `Store.Store.BulkMarkAttendance` and `Attendances.BulkMarkPreserves`: constraint preservation needs distinct ids. A batch that repeats an id ends, in the source, in a commit-time uniqueness failure that the loop does not catch. Such a batch is not modelled.
- The store methods do not require `Valid()`. Preservation is stated as `old(Valid()) ==> Valid()`, so each method's equation with its transition function holds from any state.
- Text search is modelled as SQLite's `LIKE '%s%'`: a substring match that ignores the case of ASCII letters. The wildcard characters `%` and `_` inside the search text are taken literally.
- Tie order among equal attendance counts in the top-active report is not fixed by the query. The model keeps table order, and no contract depends on it.
- In the reports, dangling references give an empty title or college name, where the source would fail reading an attribute of None. Under the invariants this never happens, as `Reports.TitlesResolve` shows for titles.
- In the routes that change state, the two reads through a possibly dangling reference are modelled as the ServerError they raise. These are `cancel_registration` reading the event's date (routes/registrations.py:137) and `delete_registration` reading the student's records (routes/registrations.py:161). `Registrations.ResolvedRegistrationsNeverFail` shows neither happens when references resolve.
- `Reports.PopularityReportOrder`: the source sorts by the score after `round(score, 2)` (routes/reports.py:275, 279). Two scores that differ but round to the same value keep scan order there, whereas the model orders them by exact score.
- The popularity report's `round(avg, 2) if avg else None` is modelled as None exactly when the mean is 0, which under the rating constraint means no feedback.
- main.py, database.py and seed_data.py hold no logic that this model covers.

## Findings

| source | as written | input that shows it | evidently intended | confidence | as-written member | corrected member |
|---|---|---|---|---|---|---|
| routes/registrations.py:218-231 | available_spots is max_capacity minus the confirmed rows of the list after the status filter, so the filter "cancelled" always reports the full capacity | one event of capacity 2 with one confirmed registration, listed with status=cancelled: it reports 2 spots, but only 1 is left | available_spots = max_capacity minus the event's confirmed registrations, whatever the filter, as check_event_availability computes it (routes/events.py:180) | not executed | Registrations.AsWrittenMisreportsSpots | Registrations.EventRegistrationsSpots |
| routes/registrations.py:207-214 | the query parameter `status` shadows the imported `fastapi.status`, so the 404 branch evaluates `None.HTTP_404_NOT_FOUND` or `"cancelled".HTTP_404_NOT_FOUND` and raises AttributeError | any event id not in the table, such as event 2 in a database that only holds event 1: the caller gets HTTP 500 instead of 404 | a 404 "Event not found" for a missing event | not executed | Registrations.AsWrittenCrashesOnMissingEvent | Registrations.EventRegistrationsSpots |
