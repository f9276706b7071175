/** The database session the routes share: six tables changed in place, and
    the clock the routes read (`date.today()` for the date checks and the
    server's time for the new rows' timestamps), supplied by the caller.
    Every route is a method whose effect is the corresponding transition
    function of its module, and which keeps the database invariants. */
module Store {
  import opened Tables
  import opened Models
  import Registrations
  import Attendances
  import Feedbacks
  import Events
  import Students
  import Colleges

  class Store {
    var colleges: Table<College>
    var students: Table<Student>
    var events: Table<Event>
    var registrations: Table<Registration>
    var attendances: Table<Attendance>
    var feedback: Table<Feedback>
    /** Today's date, as a day number. */
    var today: int
    /** The current time, in seconds. */
    var now: int

    /** The committed content of the tables. */
    function Snapshot(): Db
      reads this
    {
      Db(colleges, students, events, registrations, attendances, feedback)
    }

    ghost predicate Valid()
      reads this
    {
      Invariants(Snapshot())
    }

    /** A fresh, empty database. */
    constructor(today: int, now: int)
      ensures Snapshot() == EmptyDb && Valid()
      ensures this.today == today && this.now == now
    {
      colleges, students, events := [], [], [];
      registrations, attendances, feedback := [], [], [];
      this.today, this.now := today, now;
      new;
      EmptyDbValid();
    }

    /** The clock moves; the tables do not. */
    method SetClock(today: int, now: int)
      modifies this
      ensures Snapshot() == old(Snapshot())
      ensures this.today == today && this.now == now
    {
      this.today, this.now := today, now;
    }

    // -------------------------------------------------------------------
    // Registrations

    method Register(studentId: int, eventId: int) returns (r: Outcome<Row<Registration>>)
      modifies this
      ensures today == old(today) && now == old(now)
      ensures var s := Registrations.Register(old(Snapshot()), studentId, eventId, today, now);
        r == s.outcome && Snapshot() == s.db
      ensures old(Valid()) ==> Valid()
    {
      ghost var d := Snapshot();
      ghost var s := Registrations.Register(d, studentId, eventId, today, now);
      Registrations.RegisterPreserves(d, studentId, eventId, today, now);
      if !HasId(students, studentId) {
        return NotFound;
      }
      var k := IndexOf(events, eventId);
      if k < 0 {
        return NotFound;
      }
      var ev := events[k].val;
      if ev.status != EventStatus.Active || ev.date < today {
        return BusinessRule;
      }
      if HasRegistration(registrations, studentId, eventId)
         || ConfirmedCount(registrations, eventId) >= ev.maxCapacity {
        return Conflict;
      }
      var row := Row(FreshId(registrations), Registration(studentId, eventId, now, RegistrationStatus.Confirmed));
      registrations := registrations + [row];
      r := Ok(row);
    }

    method CancelRegistration(registrationId: int) returns (r: Outcome<()>)
      modifies this
      ensures today == old(today) && now == old(now)
      ensures var s := Registrations.CancelRegistration(old(Snapshot()), registrationId, today);
        r == s.outcome && Snapshot() == s.db
      ensures old(Valid()) ==> Valid()
    {
      ghost var d := Snapshot();
      ghost var s := Registrations.CancelRegistration(d, registrationId, today);
      Registrations.CancelPreserves(d, registrationId, today);
      var k := IndexOf(registrations, registrationId);
      if k < 0 {
        return NotFound;
      }
      var reg := registrations[k].val;
      if reg.status == RegistrationStatus.Cancelled {
        return BusinessRule;
      }
      var ev := Get(events, reg.eventId);
      if ev.None? {
        return ServerError;
      }
      if ev.value.date < today {
        return BusinessRule;
      }
      registrations := registrations[k := Row(registrationId, reg.(status := RegistrationStatus.Cancelled))];
      r := Ok(());
    }

    method DeleteRegistration(registrationId: int) returns (r: Outcome<()>)
      modifies this
      ensures today == old(today) && now == old(now)
      ensures var s := Registrations.DeleteRegistration(old(Snapshot()), registrationId);
        r == s.outcome && Snapshot() == s.db
      ensures old(Valid()) ==> Valid()
    {
      ghost var d := Snapshot();
      ghost var s := Registrations.DeleteRegistration(d, registrationId);
      Registrations.DeleteRegistrationPreserves(d, registrationId);
      var k := IndexOf(registrations, registrationId);
      if k < 0 {
        return NotFound;
      }
      var reg := registrations[k].val;
      if !HasId(students, reg.studentId) {
        return ServerError;
      }
      if HasAttendance(attendances, reg.studentId, reg.eventId)
         || HasFeedback(feedback, reg.studentId, reg.eventId) {
        return Conflict;
      }
      registrations := registrations[..k] + registrations[k + 1..];
      r := Ok(());
    }

    // -------------------------------------------------------------------
    // Attendance

    method MarkAttendance(studentId: int, eventId: int) returns (r: Outcome<Row<Attendance>>)
      modifies this
      ensures today == old(today) && now == old(now)
      ensures var s := Attendances.MarkAttendance(old(Snapshot()), studentId, eventId, today, now);
        r == s.outcome && Snapshot() == s.db
      ensures old(Valid()) ==> Valid()
    {
      ghost var d := Snapshot();
      ghost var s := Attendances.MarkAttendance(d, studentId, eventId, today, now);
      Attendances.MarkPreserves(d, studentId, eventId, today, now);
      if !HasId(students, studentId) {
        return NotFound;
      }
      var ev := Get(events, eventId);
      if ev.None? {
        return NotFound;
      }
      if !HasConfirmedRegistration(registrations, studentId, eventId) {
        return BusinessRule;
      }
      if HasAttendance(attendances, studentId, eventId) {
        return Conflict;
      }
      if ev.value.date > today {
        return BusinessRule;
      }
      var row := Row(FreshId(attendances), Attendance(studentId, eventId, now));
      attendances := attendances + [row];
      r := Ok(row);
    }

    /** One pass over the ids; every query is answered from the tables as
        they were before the batch, the additions being committed together
        at the end. */
    method BulkMarkAttendance(eventId: int, ids: seq<int>) returns (r: Outcome<Attendances.BulkSummary>)
      modifies this
      ensures today == old(today) && now == old(now)
      ensures var s := Attendances.BulkMarkAttendance(old(Snapshot()), eventId, ids, today, now);
        r == s.outcome && Snapshot() == s.db
      ensures old(Valid()) && Distinct(ids) ==> Valid()
    {
      var before := Snapshot();
      ghost var s := Attendances.BulkMarkAttendance(before, eventId, ids, today, now);
      Attendances.BulkMarkPreserves(before, eventId, ids, today, now);
      var ev := Get(events, eventId);
      if ev.None? {
        return NotFound;
      }
      if ev.value.date > today {
        return BusinessRule;
      }
      var successCount: nat := 0;
      var errors: seq<Attendances.BulkError> := [];
      var pending := attendances;
      var i := 0;
      while i < |ids|
        invariant 0 <= i <= |ids|
        invariant Attendances.BulkProgress(successCount, errors, pending)
                  == Attendances.BulkLoop(before, eventId, ids[..i], now)
      {
        var studentId := ids[i];
        ghost var p := Attendances.BulkProgress(successCount, errors, pending);
        if !HasConfirmedRegistration(before.registrations, studentId, eventId) {
          errors := errors + [Attendances.NotRegistered(studentId)];
        } else if HasAttendance(before.attendances, studentId, eventId) {
          errors := errors + [Attendances.AlreadyMarked(studentId)];
        } else {
          pending := pending + [Row(FreshId(pending), Attendance(studentId, eventId, now))];
          successCount := successCount + 1;
        }
        assert Attendances.BulkProgress(successCount, errors, pending)
               == Attendances.BulkItem(before, eventId, now, p, studentId);
        assert ids[..i + 1][..i] == ids[..i] && ids[..i + 1][i] == studentId;
        i := i + 1;
      }
      assert ids[..i] == ids;
      assert s == Step(Ok(Attendances.BulkSummary(successCount, errors)), before.(attendances := pending));
      attendances := pending;
      r := Ok(Attendances.BulkSummary(successCount, errors));
    }

    method DeleteAttendance(attendanceId: int) returns (r: Outcome<()>)
      modifies this
      ensures today == old(today) && now == old(now)
      ensures var s := Attendances.DeleteAttendance(old(Snapshot()), attendanceId);
        r == s.outcome && Snapshot() == s.db
      ensures old(Valid()) ==> Valid()
    {
      ghost var d := Snapshot();
      ghost var s := Attendances.DeleteAttendance(d, attendanceId);
      Attendances.DeleteAttendancePreserves(d, attendanceId);
      var k := IndexOf(attendances, attendanceId);
      if k < 0 {
        return NotFound;
      }
      attendances := attendances[..k] + attendances[k + 1..];
      r := Ok(());
    }

    // -------------------------------------------------------------------
    // Feedback

    method SubmitFeedback(studentId: int, eventId: int, rating: int, comments: Option<string>)
      returns (r: Outcome<Row<Feedback>>)
      modifies this
      ensures today == old(today) && now == old(now)
      ensures var s := Feedbacks.SubmitFeedback(old(Snapshot()), studentId, eventId, rating, comments, now);
        r == s.outcome && Snapshot() == s.db
      ensures old(Valid()) ==> Valid()
    {
      ghost var d := Snapshot();
      ghost var s := Feedbacks.SubmitFeedback(d, studentId, eventId, rating, comments, now);
      Feedbacks.SubmitPreserves(d, studentId, eventId, rating, comments, now);
      if !ValidRating(rating) {
        return Validation;
      }
      if !HasId(students, studentId) || !HasId(events, eventId) {
        return NotFound;
      }
      if !HasAttendance(attendances, studentId, eventId) {
        return BusinessRule;
      }
      if HasFeedback(feedback, studentId, eventId) {
        return Conflict;
      }
      var row := Row(FreshId(feedback), Feedback(studentId, eventId, rating, comments, now));
      feedback := feedback + [row];
      r := Ok(row);
    }

    /** The rating is always written; the comments only when supplied. */
    method UpdateFeedback(feedbackId: int, studentId: int, eventId: int, rating: int,
                          comments: Option<Option<string>>) returns (r: Outcome<Row<Feedback>>)
      modifies this
      ensures today == old(today) && now == old(now)
      ensures var s := Feedbacks.UpdateFeedback(old(Snapshot()), feedbackId, studentId, eventId, rating, comments);
        r == s.outcome && Snapshot() == s.db
      ensures old(Valid()) ==> Valid()
    {
      ghost var d := Snapshot();
      ghost var s := Feedbacks.UpdateFeedback(d, feedbackId, studentId, eventId, rating, comments);
      Feedbacks.UpdatePreserves(d, feedbackId, studentId, eventId, rating, comments);
      if !ValidRating(rating) {
        return Validation;
      }
      var k := IndexOf(feedback, feedbackId);
      if k < 0 {
        return NotFound;
      }
      var f := feedback[k].val;
      f := f.(rating := rating);
      if comments.Some? {
        f := f.(comments := comments.value);
      }
      feedback := feedback[k := Row(feedbackId, f)];
      r := Ok(feedback[k]);
    }

    method DeleteFeedback(feedbackId: int) returns (r: Outcome<()>)
      modifies this
      ensures today == old(today) && now == old(now)
      ensures var s := Feedbacks.DeleteFeedback(old(Snapshot()), feedbackId);
        r == s.outcome && Snapshot() == s.db
      ensures old(Valid()) ==> Valid()
    {
      ghost var d := Snapshot();
      ghost var s := Feedbacks.DeleteFeedback(d, feedbackId);
      Feedbacks.DeleteFeedbackPreserves(d, feedbackId);
      var k := IndexOf(feedback, feedbackId);
      if k < 0 {
        return NotFound;
      }
      feedback := feedback[..k] + feedback[k + 1..];
      r := Ok(());
    }

    // -------------------------------------------------------------------
    // Events

    method CreateEvent(q: Events.EventRequest) returns (r: Outcome<Row<Event>>)
      modifies this
      ensures today == old(today) && now == old(now)
      ensures var s := Events.CreateEvent(old(Snapshot()), q, today, now);
        r == s.outcome && Snapshot() == s.db
      ensures old(Valid()) ==> Valid()
    {
      ghost var d := Snapshot();
      ghost var s := Events.CreateEvent(d, q, today, now);
      Events.CreatePreserves(d, q, today, now);
      var capacity := if q.maxCapacity.Some? then q.maxCapacity.value else DefaultCapacity;
      if !ValidCapacity(capacity) {
        return Validation;
      }
      if !HasId(colleges, q.collegeId) {
        return NotFound;
      }
      if q.date < today || !TimesOrdered(q.startTime, q.endTime) {
        return BusinessRule;
      }
      var row := Row(FreshId(events), Event(q.title, q.description, q.eventType, q.date, q.startTime, q.endTime,
                                            q.venue, q.collegeId, capacity, EventStatus.Active, now));
      events := events + [row];
      r := Ok(row);
    }

    /** The supplied fields are assigned one by one. */
    method UpdateEvent(eventId: int, p: Events.EventPatch) returns (r: Outcome<Row<Event>>)
      modifies this
      ensures today == old(today) && now == old(now)
      ensures var s := Events.UpdateEvent(old(Snapshot()), eventId, p, today);
        r == s.outcome && Snapshot() == s.db
      ensures old(Valid()) ==> Valid()
    {
      ghost var d := Snapshot();
      ghost var s := Events.UpdateEvent(d, eventId, p, today);
      Events.UpdatePreserves(d, eventId, p, today);
      if p.maxCapacity.Some? && !ValidCapacity(p.maxCapacity.value) {
        return Validation;
      }
      var k := IndexOf(events, eventId);
      if k < 0 {
        return NotFound;
      }
      var e := events[k].val;
      if p.date.Some? && p.date.value < today {
        return BusinessRule;
      }
      var startTime := if p.startTime.Some? then p.startTime.value else e.startTime;
      var endTime := if p.endTime.Some? then p.endTime.value else e.endTime;
      if !TimesOrdered(startTime, endTime) {
        return BusinessRule;
      }
      e := Events.Patched(e, p);
      events := events[k := Row(eventId, e)];
      r := Ok(events[k]);
    }

    method DeleteEvent(eventId: int) returns (r: Outcome<()>)
      modifies this
      ensures today == old(today) && now == old(now)
      ensures var s := Events.DeleteEvent(old(Snapshot()), eventId);
        r == s.outcome && Snapshot() == s.db
      ensures old(Valid()) ==> Valid()
    {
      ghost var d := Snapshot();
      ghost var s := Events.DeleteEvent(d, eventId);
      Events.DeletePreserves(d, eventId);
      var k := IndexOf(events, eventId);
      if k < 0 {
        return NotFound;
      }
      if Count(registrations, RegisteredAt(eventId)) > 0 {
        return Conflict;
      }
      events := events[..k] + events[k + 1..];
      r := Ok(());
    }

    method CancelEvent(eventId: int) returns (r: Outcome<()>)
      modifies this
      ensures today == old(today) && now == old(now)
      ensures var s := Events.CancelEvent(old(Snapshot()), eventId);
        r == s.outcome && Snapshot() == s.db
      ensures old(Valid()) ==> Valid()
    {
      ghost var d := Snapshot();
      ghost var s := Events.CancelEvent(d, eventId);
      Events.CancelPreserves(d, eventId);
      var k := IndexOf(events, eventId);
      if k < 0 {
        return NotFound;
      }
      var e := events[k].val;
      if e.status != EventStatus.Active {
        return BusinessRule;
      }
      events := events[k := Row(eventId, e.(status := EventStatus.Cancelled))];
      r := Ok(());
    }

    // -------------------------------------------------------------------
    // Students

    method CreateStudent(name: string, email: string, collegeId: int, phone: Option<string>, year: Option<int>)
      returns (r: Outcome<Row<Student>>)
      modifies this
      ensures today == old(today) && now == old(now)
      ensures var s := Students.CreateStudent(old(Snapshot()), name, email, collegeId, phone, year, now);
        r == s.outcome && Snapshot() == s.db
      ensures old(Valid()) ==> Valid()
    {
      ghost var d := Snapshot();
      ghost var s := Students.CreateStudent(d, name, email, collegeId, phone, year, now);
      Students.CreatePreserves(d, name, email, collegeId, phone, year, now);
      if !ValidYear(year) {
        return Validation;
      }
      if !HasId(colleges, collegeId) {
        return NotFound;
      }
      if Students.EmailTaken(students, email) {
        return Conflict;
      }
      var row := Row(FreshId(students), Student(name, email, collegeId, phone, year, now));
      students := students + [row];
      r := Ok(row);
    }

    method UpdateStudent(studentId: int, name: string, email: string, collegeId: int,
                         phone: Option<Option<string>>, year: Option<Option<int>>)
      returns (r: Outcome<Row<Student>>)
      modifies this
      ensures today == old(today) && now == old(now)
      ensures var s := Students.UpdateStudent(old(Snapshot()), studentId, name, email, collegeId, phone, year);
        r == s.outcome && Snapshot() == s.db
      ensures old(Valid()) ==> Valid()
    {
      ghost var d := Snapshot();
      ghost var s := Students.UpdateStudent(d, studentId, name, email, collegeId, phone, year);
      Students.UpdatePreserves(d, studentId, name, email, collegeId, phone, year);
      if year.Some? && !ValidYear(year.value) {
        return Validation;
      }
      var k := IndexOf(students, studentId);
      if k < 0 {
        return NotFound;
      }
      var st := students[k].val;
      if collegeId != st.collegeId && !HasId(colleges, collegeId) {
        return NotFound;
      }
      if email != st.email && Students.EmailTaken(students, email) {
        return Conflict;
      }
      st := st.(name := name, email := email, collegeId := collegeId);
      if phone.Some? { st := st.(phone := phone.value); }
      if year.Some? { st := st.(yearOfStudy := year.value); }
      students := students[k := Row(studentId, st)];
      r := Ok(students[k]);
    }

    method DeleteStudent(studentId: int) returns (r: Outcome<()>)
      modifies this
      ensures today == old(today) && now == old(now)
      ensures var s := Students.DeleteStudent(old(Snapshot()), studentId);
        r == s.outcome && Snapshot() == s.db
      ensures old(Valid()) ==> Valid()
    {
      ghost var d := Snapshot();
      ghost var s := Students.DeleteStudent(d, studentId);
      Students.DeletePreserves(d, studentId);
      var k := IndexOf(students, studentId);
      if k < 0 {
        return NotFound;
      }
      if Count(registrations, RegisteredBy(studentId)) > 0
         || Count(attendances, AttendedBy(studentId)) > 0
         || Students.GaveFeedback(feedback, studentId) {
        return Conflict;
      }
      students := students[..k] + students[k + 1..];
      r := Ok(());
    }

    // -------------------------------------------------------------------
    // Colleges

    method CreateCollege(name: string, location: Option<string>, contactEmail: Option<string>)
      returns (r: Outcome<Row<College>>)
      modifies this
      ensures today == old(today) && now == old(now)
      ensures var s := Colleges.CreateCollege(old(Snapshot()), name, location, contactEmail, now);
        r == s.outcome && Snapshot() == s.db
      ensures old(Valid()) ==> Valid()
    {
      ghost var d := Snapshot();
      ghost var s := Colleges.CreateCollege(d, name, location, contactEmail, now);
      Colleges.CreatePreserves(d, name, location, contactEmail, now);
      if Colleges.NameTaken(colleges, name) {
        return Conflict;
      }
      var row := Row(FreshId(colleges), College(name, location, contactEmail, now));
      colleges := colleges + [row];
      r := Ok(row);
    }

    method UpdateCollege(collegeId: int, name: string, location: Option<Option<string>>,
                         contactEmail: Option<Option<string>>) returns (r: Outcome<Row<College>>)
      modifies this
      ensures today == old(today) && now == old(now)
      ensures var s := Colleges.UpdateCollege(old(Snapshot()), collegeId, name, location, contactEmail);
        r == s.outcome && Snapshot() == s.db
      ensures old(Valid()) ==> Valid()
    {
      ghost var d := Snapshot();
      ghost var s := Colleges.UpdateCollege(d, collegeId, name, location, contactEmail);
      Colleges.UpdatePreserves(d, collegeId, name, location, contactEmail);
      var k := IndexOf(colleges, collegeId);
      if k < 0 {
        return NotFound;
      }
      var c := colleges[k].val;
      if name != c.name && Colleges.NameTaken(colleges, name) {
        return Conflict;
      }
      c := c.(name := name);
      if location.Some? { c := c.(location := location.value); }
      if contactEmail.Some? { c := c.(contactEmail := contactEmail.value); }
      colleges := colleges[k := Row(collegeId, c)];
      r := Ok(colleges[k]);
    }

    method DeleteCollege(collegeId: int) returns (r: Outcome<()>)
      modifies this
      ensures today == old(today) && now == old(now)
      ensures var s := Colleges.DeleteCollege(old(Snapshot()), collegeId);
        r == s.outcome && Snapshot() == s.db
      ensures old(Valid()) ==> Valid()
    {
      ghost var d := Snapshot();
      ghost var s := Colleges.DeleteCollege(d, collegeId);
      Colleges.DeletePreserves(d, collegeId);
      var k := IndexOf(colleges, collegeId);
      if k < 0 {
        return NotFound;
      }
      if Colleges.Enrols(students, collegeId) || Colleges.Hosts(events, collegeId) {
        return Conflict;
      }
      colleges := colleges[..k] + colleges[k + 1..];
      r := Ok(());
    }
  }
}
