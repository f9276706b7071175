/** The analytical reports: read-only summaries computed from one snapshot of
    the database. Rates are exact reals; the rounding to two decimals that
    the responses apply is not modelled. */
module Reports {
  import opened Tables
  import opened Models
  import Sorting
  import Events
  import Attendances
  import Feedbacks

  // ---------------------------------------------------------------------
  // The event filter shared by the per-event reports

  /** Optional query parameters; a zero id is no filter, dates bound inclusively. */
  datatype ReportFilter = ReportFilter(
    eventId: Option<int>,
    collegeId: Option<int>,
    startDate: Option<int>,
    endDate: Option<int>)

  function Selected(q: ReportFilter): Row<Event> -> bool {
    (e: Row<Event>) =>
      && IdFilter(q.eventId, e.id)
      && IdFilter(q.collegeId, e.val.collegeId)
      && (q.startDate.None? || e.val.date >= q.startDate.value)
      && (q.endDate.None? || e.val.date <= q.endDate.value)
  }

  function ReportEvents(d: Db, q: ReportFilter): Table<Event> {
    Filter(d.events, Selected(q))
  }

  const NoFilter: ReportFilter := ReportFilter(None, None, None, None)

  /** The filters combine with AND; without any, every event is reported, in scan order. */
  lemma ReportEventsMembers(d: Db, q: ReportFilter)
    ensures forall e :: e in ReportEvents(d, q) <==>
      && e in d.events
      && (q.eventId.Some? && q.eventId.value != 0 ==> e.id == q.eventId.value)
      && (q.collegeId.Some? && q.collegeId.value != 0 ==> e.val.collegeId == q.collegeId.value)
      && (q.startDate.Some? ==> q.startDate.value <= e.val.date)
      && (q.endDate.Some? ==> e.val.date <= q.endDate.value)
    ensures ReportEvents(d, NoFilter) == d.events
  {
    FilterAll(d.events, Selected(NoFilter));
  }

  // ---------------------------------------------------------------------
  // get_event_registrations_report

  datatype RegistrationRow = RegistrationRow(
    eventId: int,
    eventTitle: string,
    eventDate: int,
    totalRegistrations: nat,
    confirmedRegistrations: nat,
    cancelledRegistrations: nat,
    availableSpots: int)

  function RegistrationRowFor(d: Db, e: Row<Event>): RegistrationRow {
    var confirmed := ConfirmedCount(d.registrations, e.id);
    var cancelled := Count(d.registrations, CancelledAt(e.id));
    RegistrationRow(e.id, e.val.title, e.val.date, confirmed + cancelled, confirmed, cancelled,
                    e.val.maxCapacity - confirmed)
  }

  function RegistrationReport(d: Db, q: ReportFilter): seq<RegistrationRow> {
    Map(ReportEvents(d, q), (e: Row<Event>) => RegistrationRowFor(d, e))
  }

  /** Since a registration is either confirmed or cancelled, the total counts
      every registration of the event. */
  lemma RegistrationRowCounts(d: Db, e: Row<Event>)
    ensures var r := RegistrationRowFor(d, e);
      && r.totalRegistrations == Count(d.registrations, RegisteredAt(e.id))
      && r.confirmedRegistrations <= r.totalRegistrations
      && r.availableSpots == e.val.maxCapacity - r.confirmedRegistrations
  {
    CountSplit(d.registrations, RegisteredAt(e.id), ConfirmedAt(e.id), CancelledAt(e.id));
  }

  /** One row per selected event, in order, with the event's counts; the
      spots agree with the event's availability report. */
  lemma RegistrationReportRows(d: Db, q: ReportFilter)
    requires DistinctIds(d.events)
    ensures var evs := ReportEvents(d, q);
      var r := RegistrationReport(d, q);
      && |r| == |evs|
      && forall i :: 0 <= i < |r| ==>
           && r[i].eventId == evs[i].id && r[i].eventTitle == evs[i].val.title
           && r[i].eventDate == evs[i].val.date
           && r[i].confirmedRegistrations == ConfirmedCount(d.registrations, evs[i].id)
           && r[i].cancelledRegistrations == Count(d.registrations, CancelledAt(evs[i].id))
           && r[i].totalRegistrations == Count(d.registrations, RegisteredAt(evs[i].id))
           && var a := Events.EventAvailability(d, evs[i].id);
              a.Ok? && r[i].availableSpots == a.value.availableSpots
  {
    var evs := ReportEvents(d, q);
    forall i | 0 <= i < |evs|
      ensures RegistrationRowFor(d, evs[i]).totalRegistrations == Count(d.registrations, RegisteredAt(evs[i].id))
      ensures var a := Events.EventAvailability(d, evs[i].id);
              a.Ok? && a.value.availableSpots == RegistrationRowFor(d, evs[i]).availableSpots
    {
      RegistrationRowCounts(d, evs[i]);
      RowAvailability(d, evs[i]);
    }
  }

  lemma RowAvailability(d: Db, e: Row<Event>)
    requires DistinctIds(d.events) && e in d.events
    ensures var a := Events.EventAvailability(d, e.id);
      a.Ok? && a.value.availableSpots == RegistrationRowFor(d, e).availableSpots
  {
    InTableHasId(d.events, e);
    SameKeySameRow(d.events, e, Row(e.id, Get(d.events, e.id).value));
  }

  lemma InTableHasId<T>(t: Table<T>, x: Row<T>)
    requires x in t
    ensures HasId(t, x.id)
  {
    var i :| 0 <= i < |t| && t[i] == x;
  }

  // ---------------------------------------------------------------------
  // get_attendance_report

  datatype AttendanceRow = AttendanceRow(
    eventId: int,
    eventTitle: string,
    eventDate: int,
    totalRegistered: nat,
    totalAttended: nat,
    attendancePercentage: real)

  /** Confirmed registrations against every attendance of the event. */
  function AttendanceRowFor(d: Db, e: Row<Event>): AttendanceRow {
    var registered := ConfirmedCount(d.registrations, e.id);
    var attended := Count(d.attendances, AttendedAt(e.id));
    AttendanceRow(e.id, e.val.title, e.val.date, registered, attended, Percentage(attended, registered))
  }

  /** A zero minimum is falsy and keeps every row. */
  predicate AtLeast(minimum: Option<real>, value: real) {
    minimum.None? || minimum.value == 0.0 || value >= minimum.value
  }

  function RateMet(minRate: Option<real>): AttendanceRow -> bool {
    (r: AttendanceRow) => AtLeast(minRate, r.attendancePercentage)
  }

  function AttendanceReport(d: Db, q: ReportFilter, minRate: Option<real>): seq<AttendanceRow> {
    Filter(Map(ReportEvents(d, q), (e: Row<Event>) => AttendanceRowFor(d, e)), RateMet(minRate))
  }

  /** A row is reported exactly for a selected event whose percentage meets
      the minimum; its percentage is the one of the event's attendance
      summary. Without a minimum every selected event has its row. */
  lemma AttendanceReportRows(d: Db, q: ReportFilter, minRate: Option<real>)
    ensures forall r :: r in AttendanceReport(d, q, minRate) <==>
      exists e :: e in ReportEvents(d, q) && r == AttendanceRowFor(d, e) && AtLeast(minRate, r.attendancePercentage)
    ensures forall e :: e in d.events ==>
      var a := Attendances.EventAttendances(d, e.id);
      a.Ok? && AttendanceRowFor(d, e).attendancePercentage == a.value.percentage
    ensures minRate.None? ==> |AttendanceReport(d, q, minRate)| == |ReportEvents(d, q)|
  {
    var rows := Map(ReportEvents(d, q), (e: Row<Event>) => AttendanceRowFor(d, e));
    forall e | e in d.events
      ensures var a := Attendances.EventAttendances(d, e.id);
              a.Ok? && AttendanceRowFor(d, e).attendancePercentage == a.value.percentage
    {
      InTableHasId(d.events, e);
    }
    if minRate.None? {
      FilterAll(rows, RateMet(minRate));
    }
  }

  // ---------------------------------------------------------------------
  // get_feedback_report

  datatype FeedbackRow = FeedbackRow(
    eventId: int,
    eventTitle: string,
    eventDate: int,
    totalFeedback: nat,
    averageRating: real,
    ratingDistribution: map<int, nat>)

  function FeedbackRowFor(d: Db, e: Row<Event>): FeedbackRow {
    var fl := Filter(d.feedback, FeedbackAt(e.id));
    var rs := Feedbacks.Ratings(fl);
    FeedbackRow(e.id, e.val.title, e.val.date, |fl|, Feedbacks.Mean(rs), Feedbacks.Buckets(rs))
  }

  /** Events without feedback are skipped, and so are those below a truthy minimum. */
  function FeedbackKept(minRating: Option<real>): FeedbackRow -> bool {
    (r: FeedbackRow) => r.totalFeedback > 0 && AtLeast(minRating, r.averageRating)
  }

  function FeedbackReport(d: Db, q: ReportFilter, minRating: Option<real>): seq<FeedbackRow> {
    Filter(Map(ReportEvents(d, q), (e: Row<Event>) => FeedbackRowFor(d, e)), FeedbackKept(minRating))
  }

  /** A row is reported exactly for a selected event with feedback whose mean
      meets the minimum. */
  lemma FeedbackReportMembers(d: Db, q: ReportFilter, minRating: Option<real>)
    ensures forall r :: r in FeedbackReport(d, q, minRating) <==>
      exists e :: e in ReportEvents(d, q) && r == FeedbackRowFor(d, e)
                  && Count(d.feedback, FeedbackAt(e.id)) > 0 && AtLeast(minRating, r.averageRating)
  {
    MapMembers(ReportEvents(d, q), (e: Row<Event>) => FeedbackRowFor(d, e));
  }

  /** Every reported average lies in 1..5, the five buckets add up to the
      total, and all three agree with the event's feedback summary. */
  lemma FeedbackReportStats(d: Db, q: ReportFilter, minRating: Option<real>)
    requires FieldsInRange(d)
    ensures forall r :: r in FeedbackReport(d, q, minRating) ==>
      && 1.0 <= r.averageRating <= 5.0
      && r.ratingDistribution.Keys == Feedbacks.RatingKeys
      && r.ratingDistribution[1] + r.ratingDistribution[2] + r.ratingDistribution[3]
         + r.ratingDistribution[4] + r.ratingDistribution[5] == r.totalFeedback
      && var s := Feedbacks.EventFeedbackSummary(d, r.eventId);
         && s.Ok? && s.value.averageRating == r.averageRating
         && s.value.ratingDistribution == r.ratingDistribution
         && s.value.totalFeedback == r.totalFeedback
  {
    FeedbackReportMembers(d, q, minRating);
    forall r | r in FeedbackReport(d, q, minRating)
      ensures 1.0 <= r.averageRating <= 5.0
      ensures r.ratingDistribution.Keys == Feedbacks.RatingKeys
      ensures r.ratingDistribution[1] + r.ratingDistribution[2] + r.ratingDistribution[3]
              + r.ratingDistribution[4] + r.ratingDistribution[5] == r.totalFeedback
      ensures var s := Feedbacks.EventFeedbackSummary(d, r.eventId);
              && s.Ok? && s.value.averageRating == r.averageRating
              && s.value.ratingDistribution == r.ratingDistribution
              && s.value.totalFeedback == r.totalFeedback
    {
      var e :| e in ReportEvents(d, q) && r == FeedbackRowFor(d, e) && Count(d.feedback, FeedbackAt(e.id)) > 0;
      FeedbackRowStats(d, e);
    }
  }

  lemma FeedbackRowStats(d: Db, e: Row<Event>)
    requires FieldsInRange(d) && e in d.events && Count(d.feedback, FeedbackAt(e.id)) > 0
    ensures var r := FeedbackRowFor(d, e);
      && 1.0 <= r.averageRating <= 5.0
      && r.ratingDistribution.Keys == Feedbacks.RatingKeys
      && r.ratingDistribution[1] + r.ratingDistribution[2] + r.ratingDistribution[3]
         + r.ratingDistribution[4] + r.ratingDistribution[5] == r.totalFeedback
      && var s := Feedbacks.EventFeedbackSummary(d, e.id);
         && s.Ok? && s.value.averageRating == r.averageRating
         && s.value.ratingDistribution == r.ratingDistribution
         && s.value.totalFeedback == r.totalFeedback
  {
    InTableHasId(d.events, e);
    Feedbacks.EventSummaryStats(d, e.id);
  }

  /** Ratings 5, 5 and 3 average 13/3 and fill buckets 3 and 5. */
  lemma FeedbackRowExample()
    ensures Feedbacks.Mean([5, 5, 3]) == 13.0 / 3.0
    ensures var b := Feedbacks.Buckets([5, 5, 3]);
      && b.Keys == Feedbacks.RatingKeys
      && b[1] == 0 && b[2] == 0 && b[3] == 1 && b[4] == 0 && b[5] == 2
  {
    ExampleMean();
    ExampleOccurrences();
  }

  lemma ExampleMean()
    ensures Feedbacks.Mean([5, 5, 3]) == 13.0 / 3.0
  {
    ExampleSum();
    var m := Feedbacks.Mean([5, 5, 3]);
    assert m * 3.0 == 13.0;
  }

  lemma ExampleSum()
    ensures Feedbacks.Sum([5, 5, 3]) == 13
  {
    var rs := [5, 5, 3];
    assert rs[..2] == [5, 5] && [5, 5][..1] == [5] && [5][..0] == [];
  }

  lemma ExampleOccurrences()
    ensures forall i :: Feedbacks.Occurrences([5, 5, 3], i)
                        == (if i == 3 then 1 else 0) + (if i == 5 then 2 else 0)
  {
    var rs := [5, 5, 3];
    assert rs[..2] == [5, 5] && [5, 5][..1] == [5] && [5][..0] == [];
  }

  // ---------------------------------------------------------------------
  // Names looked up through a row's references

  /** The title of an attendance's event; the empty string stands for a
      dangling event id, which the invariants exclude (CollegeNameOf likewise). */
  function TitleOf(d: Db, a: Row<Attendance>): string {
    match Get(d.events, a.val.eventId)
    case Some(e) => e.title
    case None => ""
  }

  function CollegeNameOf(d: Db, collegeId: int): string {
    match Get(d.colleges, collegeId)
    case Some(c) => c.name
    case None => ""
  }

  function Titles(d: Db, atts: Table<Attendance>): (r: seq<string>)
    ensures |r| == |atts|
  {
    Map(atts, (a: Row<Attendance>) => TitleOf(d, a))
  }

  /** Under the invariants every title is the title of the attendance's
      event, which exists. */
  lemma TitlesResolve(d: Db, atts: Table<Attendance>)
    requires Invariants(d)
    requires forall a :: a in atts ==> a in d.attendances
    ensures forall j :: 0 <= j < |atts| ==>
      var e := Get(d.events, atts[j].val.eventId);
      e.Some? && Titles(d, atts)[j] == e.value.title
  {
    forall j | 0 <= j < |atts|
      ensures Get(d.events, atts[j].val.eventId).Some?
    {
      var a := atts[j];
      assert a in d.attendances;
      var r :| r in d.registrations && r.val.studentId == a.val.studentId && r.val.eventId == a.val.eventId;
    }
  }

  // ---------------------------------------------------------------------
  // get_student_participation_report

  datatype ParticipationRow = ParticipationRow(
    studentId: int,
    studentName: string,
    studentEmail: string,
    collegeName: string,
    totalRegistrations: nat,
    totalAttendances: nat,
    attendanceRate: real,
    eventsAttended: seq<string>)

  /** Registrations of either status against every attendance of the student. */
  function ParticipationRowFor(d: Db, s: Row<Student>): ParticipationRow {
    var regs := Count(d.registrations, RegisteredBy(s.id));
    var atts := Filter(d.attendances, AttendedBy(s.id));
    ParticipationRow(s.id, s.val.name, s.val.email, CollegeNameOf(d, s.val.collegeId),
                     regs, |atts|, Percentage(|atts|, regs), Titles(d, atts))
  }

  function StudentSelected(studentId: Option<int>, collegeId: Option<int>): Row<Student> -> bool {
    (s: Row<Student>) => IdFilter(studentId, s.id) && IdFilter(collegeId, s.val.collegeId)
  }

  /** A zero minimum is falsy and keeps every row. */
  predicate AtLeastCount(minimum: Option<int>, value: int) {
    minimum.None? || minimum.value == 0 || value >= minimum.value
  }

  function EventsMet(minEvents: Option<int>): ParticipationRow -> bool {
    (r: ParticipationRow) => AtLeastCount(minEvents, r.totalAttendances)
  }

  function ParticipationReport(d: Db, studentId: Option<int>, collegeId: Option<int>,
                               minEvents: Option<int>): seq<ParticipationRow> {
    var students := Filter(d.students, StudentSelected(studentId, collegeId));
    Filter(Map(students, (s: Row<Student>) => ParticipationRowFor(d, s)), EventsMet(minEvents))
  }

  /** Every reported row is the row of a selected student meeting the minimum ... */
  lemma ParticipationReportSound(d: Db, studentId: Option<int>, collegeId: Option<int>, minEvents: Option<int>)
    ensures forall r :: r in ParticipationReport(d, studentId, collegeId, minEvents) ==>
      exists s :: && s in d.students && r == ParticipationRowFor(d, s)
                  && (studentId.Some? && studentId.value != 0 ==> s.id == studentId.value)
                  && (collegeId.Some? && collegeId.value != 0 ==> s.val.collegeId == collegeId.value)
                  && (minEvents.Some? && minEvents.value != 0 ==> r.totalAttendances >= minEvents.value)
  {
    var students := Filter(d.students, StudentSelected(studentId, collegeId));
    var rows := Map(students, (s: Row<Student>) => ParticipationRowFor(d, s));
    MapMembers(students, (s: Row<Student>) => ParticipationRowFor(d, s));
    forall r | r in ParticipationReport(d, studentId, collegeId, minEvents)
      ensures exists s :: && s in d.students && r == ParticipationRowFor(d, s)
                          && StudentSelected(studentId, collegeId)(s) && EventsMet(minEvents)(r)
    {
      assert r in rows;
      var s :| s in students && r == ParticipationRowFor(d, s);
      assert s in d.students && StudentSelected(studentId, collegeId)(s);
    }
  }

  /** ... and every such student has its row. */
  lemma ParticipationReportComplete(d: Db, studentId: Option<int>, collegeId: Option<int>, minEvents: Option<int>)
    ensures forall s ::
      && s in d.students
      && (studentId.Some? && studentId.value != 0 ==> s.id == studentId.value)
      && (collegeId.Some? && collegeId.value != 0 ==> s.val.collegeId == collegeId.value)
      && (minEvents.Some? && minEvents.value != 0 ==>
            Count(d.attendances, AttendedBy(s.id)) >= minEvents.value)
      ==> ParticipationRowFor(d, s) in ParticipationReport(d, studentId, collegeId, minEvents)
  {
    var students := Filter(d.students, StudentSelected(studentId, collegeId));
    var rows := Map(students, (s: Row<Student>) => ParticipationRowFor(d, s));
    MapMembers(students, (s: Row<Student>) => ParticipationRowFor(d, s));
    forall s | && s in d.students && StudentSelected(studentId, collegeId)(s)
               && EventsMet(minEvents)(ParticipationRowFor(d, s))
      ensures ParticipationRowFor(d, s) in ParticipationReport(d, studentId, collegeId, minEvents)
    {
      assert s in students;
      assert ParticipationRowFor(d, s) in rows;
    }
  }

  /** Under the invariants a student has attended no more events than they
      registered for (counting cancelled registrations), so the rate never
      exceeds 100; the titles list has one entry per attendance, and the
      college name is the name of the student's college. */
  lemma ParticipationRowFacts(d: Db, s: Row<Student>)
    requires Invariants(d) && s in d.students
    ensures var r := ParticipationRowFor(d, s);
      && r.totalAttendances == Count(d.attendances, AttendedBy(s.id)) == |r.eventsAttended|
      && r.totalRegistrations == Count(d.registrations, RegisteredBy(s.id))
      && r.totalAttendances <= r.totalRegistrations
      && 0.0 <= r.attendanceRate <= 100.0
      && (r.totalAttendances == r.totalRegistrations > 0 ==> r.attendanceRate == 100.0)
      && var c := Get(d.colleges, s.val.collegeId);
         c.Some? && r.collegeName == c.value.name
  {
    AttendedBound(d, s.id);
    assert HasId(d.colleges, s.val.collegeId);
    ParticipationRowShape(d, s);
  }

  lemma ParticipationRowShape(d: Db, s: Row<Student>)
    requires Count(d.attendances, AttendedBy(s.id)) <= Count(d.registrations, RegisteredBy(s.id))
    requires HasId(d.colleges, s.val.collegeId)
    ensures var r := ParticipationRowFor(d, s);
      && r.totalAttendances == Count(d.attendances, AttendedBy(s.id)) == |r.eventsAttended|
      && r.totalRegistrations == Count(d.registrations, RegisteredBy(s.id))
      && r.totalAttendances <= r.totalRegistrations
      && 0.0 <= r.attendanceRate <= 100.0
      && (r.totalAttendances == r.totalRegistrations > 0 ==> r.attendanceRate == 100.0)
      && var c := Get(d.colleges, s.val.collegeId);
         c.Some? && r.collegeName == c.value.name
  {
    var regs := Count(d.registrations, RegisteredBy(s.id));
    var atts := Count(d.attendances, AttendedBy(s.id));
    if atts == regs > 0 {
      PercentageOfWhole(regs);
    }
  }

  lemma PercentageOfWhole(n: nat)
    requires n > 0
    ensures Percentage(n, n) == 100.0
  {
  }

  lemma AttendedBound(d: Db, studentId: int)
    requires Invariants(d)
    ensures Count(d.attendances, AttendedBy(studentId)) <= Count(d.registrations, RegisteredBy(studentId))
  {
    var attended := AttendedEvents(d.attendances, studentId);
    var registered := RegisteredEvents(d.registrations, studentId);
    AttendedCountIsEvents(d.attendances, studentId);
    RegisteredEventsBound(d.registrations, studentId);
    forall e | e in attended ensures e in registered {
      var a :| a in d.attendances && a.val.studentId == studentId && a.val.eventId == e;
      var r :| r in d.registrations && r.val.studentId == studentId && r.val.eventId == e;
    }
    SubsetSize(attended, registered);
  }

  function AttendedEvents(t: Table<Attendance>, studentId: int): set<int> {
    set a | a in t && a.val.studentId == studentId :: a.val.eventId
  }

  function RegisteredEvents(t: Table<Registration>, studentId: int): set<int> {
    set r | r in t && r.val.studentId == studentId :: r.val.eventId
  }

  /** With one attendance per (student, event), a student's attendances
      correspond one to one to the events they attended. */
  lemma {:induction false} AttendedCountIsEvents(t: Table<Attendance>, studentId: int)
    requires DistinctIds(t) && AttendancePairsUnique(t)
    ensures Count(t, AttendedBy(studentId)) == |AttendedEvents(t, studentId)|
    decreases |t|
  {
    if |t| > 0 {
      var t' := t[..|t| - 1];
      var x := t[|t| - 1];
      LastAttendance(t, studentId);
      AttendedCountIsEvents(t', studentId);
      assert Filter(t, AttendedBy(studentId))
             == Filter(t', AttendedBy(studentId)) + (if x.val.studentId == studentId then [x] else []);
    }
  }

  /** The last attendance of a table adds its event to the student's events,
      and that event was not among them. */
  lemma LastAttendance(t: Table<Attendance>, studentId: int)
    requires DistinctIds(t) && AttendancePairsUnique(t) && |t| > 0
    ensures var t', x := t[..|t| - 1], t[|t| - 1];
      && DistinctIds(t') && AttendancePairsUnique(t')
      && (x.val.studentId == studentId ==>
            && x.val.eventId !in AttendedEvents(t', studentId)
            && AttendedEvents(t, studentId) == AttendedEvents(t', studentId) + {x.val.eventId})
      && (x.val.studentId != studentId ==> AttendedEvents(t, studentId) == AttendedEvents(t', studentId))
  {
    var t' := t[..|t| - 1];
    var x := t[|t| - 1];
    assert forall a :: a in t <==> a in t' || a == x;
    assert forall i :: 0 <= i < |t'| ==> t'[i] == t[i];
    if x.val.studentId == studentId {
      forall a | a in t' && a.val.studentId == studentId ensures a.val.eventId != x.val.eventId {
        var i :| 0 <= i < |t'| && t'[i] == a;
        assert t[i] == t'[i];
      }
    }
  }

  lemma {:induction false} RegisteredEventsBound(t: Table<Registration>, studentId: int)
    ensures |RegisteredEvents(t, studentId)| <= Count(t, RegisteredBy(studentId))
    decreases |t|
  {
    if |t| > 0 {
      var t' := t[..|t| - 1];
      var x := t[|t| - 1];
      assert forall r :: r in t <==> r in t' || r == x;
      RegisteredEventsBound(t', studentId);
      if x.val.studentId == studentId {
        assert RegisteredEvents(t, studentId) == RegisteredEvents(t', studentId) + {x.val.eventId};
      } else {
        assert RegisteredEvents(t, studentId) == RegisteredEvents(t', studentId);
      }
    }
  }

  lemma SubsetSize(a: set<int>, b: set<int>)
    requires a <= b
    ensures |a| <= |b|
  {
    assert b == a + (b - a);
    assert a * (b - a) == {};
  }

  // ---------------------------------------------------------------------
  // get_event_popularity_report

  datatype PopularityRow = PopularityRow(
    eventId: int,
    eventTitle: string,
    eventType: EventType,
    eventDate: int,
    collegeName: string,
    registrations: nat,
    attendance: nat,
    averageRating: Option<real>,
    popularityScore: real)

  /** Weighted: 0.4 per confirmed registration, 0.4 per attendance and 0.8 per
      point of average rating (0 without feedback). */
  function Score(registrations: nat, attendance: nat, averageRating: real): real {
    (registrations as real) * 0.4 + (attendance as real) * 0.4 + averageRating * 4.0 * 0.2
  }

  function PopularityRowFor(d: Db, e: Row<Event>): PopularityRow {
    var regs := ConfirmedCount(d.registrations, e.id);
    var att := Count(d.attendances, AttendedAt(e.id));
    var avg := Feedbacks.Mean(Feedbacks.Ratings(Filter(d.feedback, FeedbackAt(e.id))));
    PopularityRow(e.id, e.val.title, e.val.eventType, e.val.date, CollegeNameOf(d, e.val.collegeId),
                  regs, att, if avg != 0.0 then Some(avg) else None, Score(regs, att, avg))
  }

  /** The event type arrives as free text; an empty one is no filter. */
  predicate TypeNamed(eventType: Option<string>, t: EventType) {
    !Searching(eventType) || EventTypeName(t) == eventType.value
  }

  datatype PopularityFilter = PopularityFilter(
    collegeId: Option<int>,
    eventType: Option<string>,
    startDate: Option<int>,
    endDate: Option<int>)

  function PopularitySelected(q: PopularityFilter): Row<Event> -> bool {
    (e: Row<Event>) =>
      && IdFilter(q.collegeId, e.val.collegeId)
      && TypeNamed(q.eventType, e.val.eventType)
      && (q.startDate.None? || e.val.date >= q.startDate.value)
      && (q.endDate.None? || e.val.date <= q.endDate.value)
  }

  function ScoreOf(r: PopularityRow): real {
    r.popularityScore
  }

  function PopularityRows(d: Db, q: PopularityFilter): seq<PopularityRow> {
    Map(Filter(d.events, PopularitySelected(q)), (e: Row<Event>) => PopularityRowFor(d, e))
  }

  /** Rows sorted by score, highest first and stably, then `[:limit]`. */
  function PopularityReport(d: Db, limit: int, q: PopularityFilter): seq<PopularityRow> {
    PyPrefix(Sorting.SortDesc(PopularityRows(d, q), ScoreOf), limit)
  }

  /** The report is ordered by score; no row it leaves out scores higher than
      a row it keeps; a non-negative limit keeps min(limit, n) rows; with a
      limit of at least n it is a permutation of all rows that keeps equal
      scores in scan order. */
  lemma PopularityReportOrder(d: Db, limit: int, q: PopularityFilter)
    ensures var rows := PopularityRows(d, q);
      var r := PopularityReport(d, limit, q);
      && Sorting.SortedDesc(r, ScoreOf)
      && (forall x :: x in r ==> x in rows)
      && (forall x, y :: x in r && y in rows && y !in r ==> ScoreOf(x) >= ScoreOf(y))
      && (0 <= limit ==> |r| == if limit < |rows| then limit else |rows|)
      && (limit >= |rows| ==>
            && multiset(r) == multiset(rows)
            && forall k :: Sorting.WithKey(r, ScoreOf, k) == Sorting.WithKey(rows, ScoreOf, k))
  {
    RankedPrefix(PopularityRows(d, q), ScoreOf, limit);
  }

  /** The top n of a stable descending sort. */
  lemma RankedPrefix<T(!new)>(rows: seq<T>, key: T -> real, n: int)
    ensures var r := PyPrefix(Sorting.SortDesc(rows, key), n);
      && Sorting.SortedDesc(r, key)
      && (forall x :: x in r ==> x in rows)
      && (forall x, y :: x in r && y in rows && y !in r ==> key(x) >= key(y))
      && (0 <= n ==> |r| == if n < |rows| then n else |rows|)
      && (n >= |rows| ==>
            && multiset(r) == multiset(rows)
            && forall k :: Sorting.WithKey(r, key, k) == Sorting.WithKey(rows, key, k))
  {
    var sorted := Sorting.SortDesc(rows, key);
    Sorting.SortDescCorrect(rows, key);
    PrefixKeepsTop(sorted, n, key);
    assert forall x :: x in rows <==> x in multiset(rows);
    if n >= |rows| {
      assert PyPrefix(sorted, n) == sorted;
    }
  }

  /** A prefix of a sorted sequence is sorted, drawn from it, and no element
      outside it is larger than one inside. */
  lemma PrefixKeepsTop<T(!new)>(s: seq<T>, n: int, key: T -> real)
    requires Sorting.SortedDesc(s, key)
    ensures var r := PyPrefix(s, n);
      && Sorting.SortedDesc(r, key)
      && (forall x :: x in r ==> x in s)
      && (forall x, y :: x in r && y in s && y !in r ==> key(x) >= key(y))
  {
    var r := PyPrefix(s, n);
    forall x, y | x in r && y in s && y !in r ensures key(x) >= key(y) {
      var i :| 0 <= i < |r| && r[i] == x;
      var j :| 0 <= j < |s| && s[j] == y;
      assert forall k :: 0 <= k < |r| ==> s[k] == r[k] && r[k] in r;
      assert s[i] == x;
    }
    forall x | x in r ensures x in s {
      var i :| 0 <= i < |r| && r[i] == x;
      assert s[i] == x;
    }
  }

  /** 10 confirmed registrations, 8 attendances and an average of 4 score 10.4. */
  lemma ScoreExample()
    ensures Score(10, 8, 4.0) == 10.4
  {
  }

  /** The average is reported exactly when the event has feedback, and then
      it is the feedback mean, within 1..5; the score counts it as 0 otherwise. */
  lemma PopularityRowRating(d: Db, e: Row<Event>)
    requires FieldsInRange(d)
    ensures var r := PopularityRowFor(d, e);
      var fl := Filter(d.feedback, FeedbackAt(e.id));
      && (r.averageRating.Some? <==> |fl| > 0)
      && (r.averageRating.Some? ==>
            && r.averageRating.value == Feedbacks.Mean(Feedbacks.Ratings(fl))
            && 1.0 <= r.averageRating.value <= 5.0
            && r.popularityScore == Score(r.registrations, r.attendance, r.averageRating.value))
      && (r.averageRating.None? ==> r.popularityScore == Score(r.registrations, r.attendance, 0.0))
  {
    var fl := Filter(d.feedback, FeedbackAt(e.id));
    var rs := Feedbacks.Ratings(fl);
    if |fl| > 0 {
      assert forall f :: f in fl ==> f in d.feedback;
      Feedbacks.RatingsInRange(fl);
      Feedbacks.MeanBounds(rs);
    }
  }

  // ---------------------------------------------------------------------
  // get_top_active_students

  datatype ActiveStudent = ActiveStudent(
    studentId: int,
    studentName: string,
    studentEmail: string,
    collegeName: string,
    attendanceCount: nat,
    eventsAttended: seq<string>)

  datatype TopActive = TopActive(topActiveStudents: seq<ActiveStudent>, totalCount: nat)

  function TypedEventIds(d: Db, eventType: Option<string>): set<int> {
    set e | e in d.events && TypeNamed(eventType, e.val.eventType) :: e.id
  }

  /** The attendance restriction is applied only when a type is given and
      some event has it; a type no event has restricts nothing. */
  function Restriction(d: Db, eventType: Option<string>): Option<set<int>> {
    var ids := TypedEventIds(d, eventType);
    if Searching(eventType) && ids != {} then Some(ids) else None
  }

  function CountedFor(studentId: int, restriction: Option<set<int>>): Row<Attendance> -> bool {
    (a: Row<Attendance>) =>
      a.val.studentId == studentId && (restriction.None? || a.val.eventId in restriction.value)
  }

  function ActiveStudentFor(d: Db, s: Row<Student>, restriction: Option<set<int>>): ActiveStudent {
    var atts := Filter(d.attendances, CountedFor(s.id, restriction));
    ActiveStudent(s.id, s.val.name, s.val.email, CollegeNameOf(d, s.val.collegeId), |atts|, Titles(d, atts))
  }

  /** The inner join with colleges drops students of a missing college; the
      outer join with attendances keeps students without any, unless the
      restriction filters on the attendance's event, which drops them. */
  function ActiveListed(d: Db, collegeId: Option<int>, restriction: Option<set<int>>): Row<Student> -> bool {
    (s: Row<Student>) =>
      && HasId(d.colleges, s.val.collegeId)
      && IdFilter(collegeId, s.val.collegeId)
      && (restriction.None? || Count(d.attendances, CountedFor(s.id, restriction)) > 0)
  }

  function CountOf(r: ActiveStudent): real {
    r.attendanceCount as real
  }

  /** SQL `LIMIT n`: a negative limit is no limit. */
  function SqlLimit<T>(s: seq<T>, n: int): (r: seq<T>)
    ensures |r| == if 0 <= n < |s| then n else |s|
    ensures r == s[..|r|]
  {
    if 0 <= n < |s| then s[..n] else s
  }

  function ActiveRows(d: Db, collegeId: Option<int>, eventType: Option<string>): seq<ActiveStudent> {
    var restriction := Restriction(d, eventType);
    Map(Filter(d.students, ActiveListed(d, collegeId, restriction)),
        (s: Row<Student>) => ActiveStudentFor(d, s, restriction))
  }

  /** Grouped by student and ordered by attendance count, highest first.
      The order among equal counts is not fixed by the query; the model keeps
      scan order. */
  function TopActiveStudents(d: Db, limit: int, collegeId: Option<int>, eventType: Option<string>): TopActive {
    var top := SqlLimit(Sorting.SortDesc(ActiveRows(d, collegeId, eventType), CountOf), limit);
    TopActive(top, |top|)
  }

  /** The list is ordered by count, no student left out has more attendances
      than one listed, the limit applies when non-negative, and the total is
      the list's length. */
  lemma TopActiveOrder(d: Db, limit: int, collegeId: Option<int>, eventType: Option<string>)
    ensures var rows := ActiveRows(d, collegeId, eventType);
      var t := TopActiveStudents(d, limit, collegeId, eventType);
      var top := t.topActiveStudents;
      && t.totalCount == |top|
      && Sorting.SortedDesc(top, CountOf)
      && (forall x :: x in top ==> x in rows)
      && (forall x, y :: x in top && y in rows && y !in top ==> CountOf(x) >= CountOf(y))
      && |top| == (if 0 <= limit < |rows| then limit else |rows|)
      && (limit < 0 ==> multiset(top) == multiset(rows))
  {
    var rows := ActiveRows(d, collegeId, eventType);
    var sorted := Sorting.SortDesc(rows, CountOf);
    var n := if limit < 0 then |sorted| else limit;
    assert PyPrefix(sorted, n) == SqlLimit(sorted, limit);
    RankedPrefix(rows, CountOf, n);
  }

  /** Every listed count is the length of the listed titles. */
  lemma TopActiveTitles(d: Db, collegeId: Option<int>, eventType: Option<string>)
    ensures forall x :: x in ActiveRows(d, collegeId, eventType) ==> x.attendanceCount == |x.eventsAttended|
  {
    var restriction := Restriction(d, eventType);
    var students := Filter(d.students, ActiveListed(d, collegeId, restriction));
    MapMembers(students, (s: Row<Student>) => ActiveStudentFor(d, s, restriction));
  }

  /** Who is listed: for each student of an existing college passing the
      college filter, a row, except that under a type restriction students
      none of whose attendances count are not listed. */
  lemma TopActiveListed(d: Db, collegeId: Option<int>, eventType: Option<string>)
    ensures var restriction := Restriction(d, eventType);
      && (forall x :: x in ActiveRows(d, collegeId, eventType) ==>
            exists s :: && s in d.students && x == ActiveStudentFor(d, s, restriction)
                        && HasId(d.colleges, s.val.collegeId)
                        && (collegeId.Some? && collegeId.value != 0 ==> s.val.collegeId == collegeId.value)
                        && (restriction.Some? ==> x.attendanceCount > 0))
      && (forall s :: && s in d.students && HasId(d.colleges, s.val.collegeId)
                      && (collegeId.Some? && collegeId.value != 0 ==> s.val.collegeId == collegeId.value)
                      && (restriction.Some? ==> ActiveStudentFor(d, s, restriction).attendanceCount > 0)
            ==> ActiveStudentFor(d, s, restriction) in ActiveRows(d, collegeId, eventType))
  {
    var restriction := Restriction(d, eventType);
    var students := Filter(d.students, ActiveListed(d, collegeId, restriction));
    MapMembers(students, (s: Row<Student>) => ActiveStudentFor(d, s, restriction));
  }

  /** What is counted: without a type, or with one no event has, every
      attendance of the student; with a type some event has, exactly the
      student's attendances at events of that type. */
  lemma TopActiveCounted(d: Db, eventType: Option<string>, s: Row<Student>)
    ensures var restriction := Restriction(d, eventType);
      var counted := Filter(d.attendances, CountedFor(s.id, restriction));
      && ActiveStudentFor(d, s, restriction).attendanceCount == |counted|
      && ((!Searching(eventType) || forall e :: e in d.events ==> EventTypeName(e.val.eventType) != eventType.value)
          ==> counted == Filter(d.attendances, AttendedBy(s.id)))
      && ((Searching(eventType) && exists e :: e in d.events && EventTypeName(e.val.eventType) == eventType.value)
          ==> forall a :: a in counted <==>
                && a in d.attendances && a.val.studentId == s.id
                && exists e :: e in d.events && e.id == a.val.eventId
                               && EventTypeName(e.val.eventType) == eventType.value)
  {
    var restriction := Restriction(d, eventType);
    var ids := TypedEventIds(d, eventType);
    if Searching(eventType) && exists e :: e in d.events && EventTypeName(e.val.eventType) == eventType.value {
      var e :| e in d.events && EventTypeName(e.val.eventType) == eventType.value;
      assert e.id in ids;
    } else {
      assert ids == {} || !Searching(eventType);
      FilterSame(d.attendances, CountedFor(s.id, restriction), AttendedBy(s.id));
    }
  }

  // ---------------------------------------------------------------------
  // get_dashboard_summary

  /** Thirty days, in seconds. */
  const RecentWindow: int := 30 * 86400

  datatype Dashboard = Dashboard(
    totalColleges: nat,
    totalStudents: nat,
    totalEvents: nat,
    totalRegistrations: nat,
    totalAttendances: nat,
    totalFeedback: nat,
    overallAttendanceRate: real,
    feedbackRate: real,
    averageRating: real,
    recentEvents: nat,
    recentRegistrations: nat,
    eventTypeDistribution: map<EventType, nat>)

  function IsConfirmed(r: Row<Registration>): bool {
    r.val.status == RegistrationStatus.Confirmed
  }

  function IsCancelled(r: Row<Registration>): bool {
    r.val.status == RegistrationStatus.Cancelled
  }

  function CreatedSince(since: int): Row<Event> -> bool {
    (e: Row<Event>) => e.val.createdAt >= since
  }

  function RegisteredSince(since: int): Row<Registration> -> bool {
    (r: Row<Registration>) => r.val.registeredAt >= since
  }

  function OfType(t: EventType): Row<Event> -> bool {
    (e: Row<Event>) => e.val.eventType == t
  }

  /** `GROUP BY event_type` with a count: only types that occur are keys. */
  function TypeDistribution(events: Table<Event>): map<EventType, nat> {
    map t | t in (set e | e in events :: e.val.eventType) :: Count(events, OfType(t))
  }

  /** `now` is the caller's clock. */
  function DashboardSummary(d: Db, now: int): Dashboard {
    var confirmed := Count(d.registrations, IsConfirmed);
    Dashboard(|d.colleges|, |d.students|, |d.events|, confirmed, |d.attendances|, |d.feedback|,
              Percentage(|d.attendances|, confirmed), Percentage(|d.feedback|, |d.attendances|),
              Feedbacks.Mean(Feedbacks.Ratings(d.feedback)),
              Count(d.events, CreatedSince(now - RecentWindow)),
              Count(d.registrations, RegisteredSince(now - RecentWindow)),
              TypeDistribution(d.events))
  }

  /** A type's count, zero for a type that is not a key. */
  function TypeCount(m: map<EventType, nat>, t: EventType): nat {
    if t in m then m[t] else 0
  }

  /** The distribution has a key for exactly the types some event has, each
      with its number of events, and the six counts add up to the number of
      events. */
  lemma DashboardDistribution(d: Db, now: int)
    ensures var m := DashboardSummary(d, now).eventTypeDistribution;
      && (forall t :: t in m <==> exists e :: e in d.events && e.val.eventType == t)
      && (forall t :: t in m ==> m[t] > 0)
      && (forall t :: TypeCount(m, t) == Count(d.events, OfType(t)))
      && TypeCount(m, EventType.Workshop) + TypeCount(m, Seminar) + TypeCount(m, Competition)
         + TypeCount(m, Conference) + TypeCount(m, Hackathon) + TypeCount(m, Cultural)
         == DashboardSummary(d, now).totalEvents
  {
    var m := TypeDistribution(d.events);
    forall t ensures TypeCount(m, t) == Count(d.events, OfType(t)) && (t in m ==> m[t] > 0) {
      var f := Filter(d.events, OfType(t));
      if t in m {
        var e :| e in d.events && e.val.eventType == t;
        assert e in f;
      } else {
        assert forall e :: e in d.events ==> e.val.eventType != t;
        FilterNone(d.events, OfType(t));
      }
    }
    TypesPartition(d.events);
  }

  lemma {:induction false} TypesPartition(events: Table<Event>)
    ensures Count(events, OfType(EventType.Workshop)) + Count(events, OfType(Seminar))
            + Count(events, OfType(Competition)) + Count(events, OfType(Conference))
            + Count(events, OfType(Hackathon)) + Count(events, OfType(Cultural)) == |events|
    decreases |events|
  {
    if |events| > 0 {
      TypesPartition(events[..|events| - 1]);
    }
  }

  /** The recent counts are bounded by the totals of their tables, and once
      every record is at most thirty days old they are those totals. */
  lemma DashboardRecent(d: Db, now: int)
    ensures var v := DashboardSummary(d, now);
      && v.recentEvents <= v.totalEvents
      && v.recentRegistrations <= |d.registrations|
      && ((forall e :: e in d.events ==> e.val.createdAt >= now - RecentWindow) ==> v.recentEvents == v.totalEvents)
      && ((forall r :: r in d.registrations ==> r.val.registeredAt >= now - RecentWindow)
          ==> v.recentRegistrations == |d.registrations|)
  {
    var since := now - RecentWindow;
    if forall e :: e in d.events ==> e.val.createdAt >= since {
      FilterAll(d.events, CreatedSince(since));
    }
    if forall r :: r in d.registrations ==> r.val.registeredAt >= since {
      FilterAll(d.registrations, RegisteredSince(since));
    }
  }

  /** Only confirmed registrations count towards the attendance rate, and
      each rate is its part over its whole times 100, or 0 on an empty whole. */
  lemma DashboardRates(d: Db, now: int)
    ensures var v := DashboardSummary(d, now);
      v.totalRegistrations + Count(d.registrations, IsCancelled) == |d.registrations|
    ensures var v := DashboardSummary(d, now);
      && (v.totalRegistrations == 0 ==> v.overallAttendanceRate == 0.0)
      && v.overallAttendanceRate == Percentage(v.totalAttendances, v.totalRegistrations)
      && v.feedbackRate == Percentage(v.totalFeedback, v.totalAttendances)
      && (v.totalAttendances == 0 ==> v.feedbackRate == 0.0)
  {
    CountSplit(d.registrations, (r: Row<Registration>) => true, IsConfirmed, IsCancelled);
    FilterAll(d.registrations, (r: Row<Registration>) => true);
  }

  /** The average is 0 without feedback; otherwise it is the overall
      statistics' average, within 1..5. */
  lemma DashboardAverage(d: Db, now: int)
    requires FieldsInRange(d)
    ensures var v := DashboardSummary(d, now);
      && (v.totalFeedback == 0 ==> v.averageRating == 0.0)
      && (v.totalFeedback > 0 ==>
            && v.averageRating == Feedbacks.OverallFeedbackStatistics(d).averageRating
            && 1.0 <= v.averageRating <= 5.0)
  {
    if |d.feedback| > 0 {
      Feedbacks.OverallStatisticsRatings(d);
    }
  }
}
