/** Creating, updating and deleting students, and the per-student event counts. */
module Students {
  import opened Tables
  import opened Models

  /** `students.email` already holds this address. */
  predicate EmailTaken(t: Table<Student>, email: string) {
    exists s :: s in t && s.val.email == email
  }

  predicate GaveFeedback(t: Table<Feedback>, studentId: int) {
    exists f :: f in t && f.val.studentId == studentId
  }

  /** create_student: the year range is a field check made before the route
      runs; then the college, then the email. */
  function CreateStudent(d: Db, name: string, email: string, collegeId: int, phone: Option<string>,
                         year: Option<int>, now: int): (step: Step<Row<Student>>)
    ensures !step.outcome.Ok? ==> step.db == d
    ensures step.outcome.Ok? ==> step.db == d.(students := d.students + [step.outcome.value])
  {
    if !ValidYear(year) then Step(Validation, d)
    else if !HasId(d.colleges, collegeId) then Step(NotFound, d)
    else if EmailTaken(d.students, email) then Step(Conflict, d)
    else
      var sts := Insert(d.students, Student(name, email, collegeId, phone, year, now));
      Step(Ok(sts[|d.students|]), d.(students := sts))
  }

  lemma CreateOutcomes(d: Db, name: string, email: string, collegeId: int, phone: Option<string>,
                       year: Option<int>, now: int)
    ensures var s := CreateStudent(d, name, email, collegeId, phone, year, now);
      && (s.outcome == Validation <==> year.Some? && !(1 <= year.value <= 4))
      && (ValidYear(year) ==> (s.outcome == NotFound <==> !HasId(d.colleges, collegeId)))
      && (ValidYear(year) && HasId(d.colleges, collegeId) ==>
            (s.outcome == Conflict <==> exists x :: x in d.students && x.val.email == email))
      && (!s.outcome.Ok? ==> s.db == d)
      && (s.outcome.Ok? ==>
            && s.db == d.(students := d.students + [s.outcome.value])
            && s.outcome.value.val == Student(name, email, collegeId, phone, year, now)
            && !HasId(d.students, s.outcome.value.id))
  {
  }

  lemma CreatePreserves(d: Db, name: string, email: string, collegeId: int, phone: Option<string>,
                        year: Option<int>, now: int)
    ensures Invariants(d) ==> Invariants(CreateStudent(d, name, email, collegeId, phone, year, now).db)
  {
    if Invariants(d) && CreateStudent(d, name, email, collegeId, phone, year, now).outcome.Ok? {
      AddStudentPreserves(d, Student(name, email, collegeId, phone, year, now));
    }
  }

  /** A student of an existing college, with a free email and a year in
      range, keeps every constraint. */
  lemma AddStudentPreserves(d: Db, v: Student)
    requires Invariants(d) && ValidYear(v.yearOfStudy) && HasId(d.colleges, v.collegeId)
    requires !EmailTaken(d.students, v.email)
    ensures Invariants(d.(students := Insert(d.students, v)))
  {
    var t' := Insert(d.students, v);
    InsertKeepsEmailsUnique(d.students, v);
    InsertKeepsIds(d.students, v);
    assert forall x :: x in t' ==> x in d.students || x == Row(FreshId(d.students), v);
  }

  lemma InsertKeepsEmailsUnique(t: Table<Student>, v: Student)
    requires EmailsUnique(t) && !EmailTaken(t, v.email)
    ensures EmailsUnique(Insert(t, v))
  {
    var t' := Insert(t, v);
    var y := Row(FreshId(t), v);
    forall a, b | a in t' && b in t' && a.val.email == b.val.email
      ensures a.id == b.id
    {
      if (a == y) != (b == y) {
        assert false;
      }
    }
  }

  /** update_student: the body is a full StudentCreate. The college is
      looked up only when it changes and the email only when it changes;
      name, email and college are always written, phone and year only when
      the request sets them (`Some(v)`, where v may be null). */
  function UpdateStudent(d: Db, studentId: int, name: string, email: string, collegeId: int,
                         phone: Option<Option<string>>, year: Option<Option<int>>): (step: Step<Row<Student>>)
    ensures !step.outcome.Ok? ==> step.db == d
    ensures step.outcome.Ok? ==>
      var k := IndexOf(d.students, studentId);
      0 <= k && step.db == d.(students := UpdateAt(d.students, k, step.outcome.value.val))
  {
    if year.Some? && !ValidYear(year.value) then Step(Validation, d)
    else
      var k := IndexOf(d.students, studentId);
      if k < 0 then Step(NotFound, d)
      else
        var st := d.students[k].val;
        if collegeId != st.collegeId && !HasId(d.colleges, collegeId) then Step(NotFound, d)
        else if email != st.email && EmailTaken(d.students, email) then
          Step(Conflict, d)
        else
          var st' := st.(name := name, email := email, collegeId := collegeId,
                         phone := Pick(phone, st.phone), yearOfStudy := Pick(year, st.yearOfStudy));
          var sts := UpdateAt(d.students, k, st');
          Step(Ok(sts[k]), d.(students := sts))
  }

  /** A college or email left unchanged is not checked again, so a student
      whose college has vanished can still be updated; the supplied fields
      are written and nothing else changes. */
  lemma UpdateEffect(d: Db, studentId: int, name: string, email: string, collegeId: int,
                     phone: Option<Option<string>>, year: Option<Option<int>>)
    requires DistinctIds(d.students)
    ensures var s := UpdateStudent(d, studentId, name, email, collegeId, phone, year);
      && (s.outcome == Validation <==> year.Some? && !ValidYear(year.value))
      && (!s.outcome.Validation? && !HasId(d.students, studentId) ==> s.outcome == NotFound)
      && (!s.outcome.Validation? && HasId(d.students, studentId) ==>
            var st := Get(d.students, studentId).value;
            && (s.outcome == NotFound <==> collegeId != st.collegeId && !HasId(d.colleges, collegeId))
            && (s.outcome == Conflict <==>
                  (collegeId == st.collegeId || HasId(d.colleges, collegeId))
                  && email != st.email && exists x :: x in d.students && x.val.email == email)
            && (collegeId == st.collegeId && email == st.email ==> s.outcome.Ok?))
      && (!s.outcome.Ok? ==> s.db == d)
      && (s.outcome.Ok? ==>
            var st := Get(d.students, studentId).value;
            var g := s.outcome.value;
            && g.id == studentId
            && g.val.name == name && g.val.email == email && g.val.collegeId == collegeId
            && g.val.phone == (if phone.Some? then phone.value else st.phone)
            && g.val.yearOfStudy == (if year.Some? then year.value else st.yearOfStudy)
            && g.val.createdAt == st.createdAt
            && s.db == d.(students := s.db.students)
            && (forall x :: x in s.db.students <==> x == g || (x in d.students && x.id != studentId)))
  {
  }

  /** Email uniqueness and the college reference survive an update. */
  lemma UpdatePreserves(d: Db, studentId: int, name: string, email: string, collegeId: int,
                        phone: Option<Option<string>>, year: Option<Option<int>>)
    ensures Invariants(d) ==> Invariants(UpdateStudent(d, studentId, name, email, collegeId, phone, year).db)
  {
    if Invariants(d) {
      var s := UpdateStudent(d, studentId, name, email, collegeId, phone, year);
      if s.outcome.Ok? {
        var k := IndexOf(d.students, studentId);
        var st := d.students[k].val;
        assert d.students[k] in d.students;
        ReviseStudentPreserves(d, k, st.(name := name, email := email, collegeId := collegeId,
                                         phone := Pick(phone, st.phone),
                                         yearOfStudy := Pick(year, st.yearOfStudy)));
      }
    }
  }

  /** Overwriting one student keeps every constraint when the college exists,
      the year is in range, and the email is the student's own or unused. */
  lemma ReviseStudentPreserves(d: Db, k: int, v: Student)
    requires Invariants(d) && 0 <= k < |d.students|
    requires HasId(d.colleges, v.collegeId) && ValidYear(v.yearOfStudy)
    requires v.email == d.students[k].val.email || !exists x :: x in d.students && x.val.email == v.email
    ensures Invariants(d.(students := UpdateAt(d.students, k, v)))
  {
    var t := d.students;
    var t' := UpdateAt(t, k, v);
    assert t[k] in t;
    ReviseEmailsUnique(t, k, v);
    UpdateKeepsIds(t, k, v);
    assert forall x :: x in t' ==> HasId(d.colleges, x.val.collegeId);
    assert forall x :: x in t' ==> ValidYear(x.val.yearOfStudy);
  }

  lemma ReviseEmailsUnique(t: Table<Student>, k: int, v: Student)
    requires DistinctIds(t) && EmailsUnique(t) && 0 <= k < |t|
    requires v.email == t[k].val.email || !exists x :: x in t && x.val.email == v.email
    ensures EmailsUnique(UpdateAt(t, k, v))
  {
    var y := Row(t[k].id, v);
    var t' := UpdateAt(t, k, v);
    assert t[k] in t;
    assert forall o :: o in t' && o != y ==> o in t && o.id != t[k].id;
    assert forall o :: o in t && o.id != t[k].id ==> o.val.email != v.email;
  }

  /** delete_student: refused while the student has any registration,
      attendance or feedback. */
  function DeleteStudent(d: Db, studentId: int): (step: Step<()>)
    ensures !step.outcome.Ok? ==> step.db == d
    ensures step.outcome.Ok? ==>
      var k := IndexOf(d.students, studentId);
      0 <= k && step.db == d.(students := RemoveAt(d.students, k))
  {
    var k := IndexOf(d.students, studentId);
    if k < 0 then Step(NotFound, d)
    else if Count(d.registrations, RegisteredBy(studentId)) > 0
         || Count(d.attendances, AttendedBy(studentId)) > 0
         || GaveFeedback(d.feedback, studentId)
    then Step(Conflict, d)
    else Step(Ok(()), d.(students := RemoveAt(d.students, k)))
  }

  lemma DeleteEffect(d: Db, studentId: int)
    requires DistinctIds(d.students)
    ensures var s := DeleteStudent(d, studentId);
      && (s.outcome == NotFound <==> !HasId(d.students, studentId))
      && (HasId(d.students, studentId) ==>
            (s.outcome == Conflict <==>
               (exists r :: r in d.registrations && r.val.studentId == studentId)
               || (exists a :: a in d.attendances && a.val.studentId == studentId)
               || (exists f :: f in d.feedback && f.val.studentId == studentId)))
      && (!s.outcome.Ok? ==> s.db == d)
      && (s.outcome.Ok? ==>
            && s.db == d.(students := s.db.students)
            && forall x :: x in s.db.students <==> x in d.students && x.id != studentId)
  {
    var regs := Filter(d.registrations, RegisteredBy(studentId));
    var atts := Filter(d.attendances, AttendedBy(studentId));
    if exists r :: r in d.registrations && r.val.studentId == studentId {
      var r :| r in d.registrations && r.val.studentId == studentId;
      assert r in regs;
    }
    if exists a :: a in d.attendances && a.val.studentId == studentId {
      var a :| a in d.attendances && a.val.studentId == studentId;
      assert a in atts;
    }
    if |regs| > 0 {
      assert regs[0] in regs;
    }
    if |atts| > 0 {
      assert atts[0] in atts;
    }
  }

  lemma DeletePreserves(d: Db, studentId: int)
    ensures Invariants(d) ==> Invariants(DeleteStudent(d, studentId).db)
  {
    if Invariants(d) {
      var s := DeleteStudent(d, studentId);
      if s.outcome.Ok? {
        var k := IndexOf(d.students, studentId);
        forall r | r in d.registrations ensures HasId(s.db.students, r.val.studentId) {
          assert r !in Filter(d.registrations, RegisteredBy(studentId));
          RemoveKeepsOthers(d.students, k, r.val.studentId);
        }
      }
    }
  }

  // ---------------------------------------------------------------------
  // get_student_events

  /** The events behind the student's registrations and attendances, as
      event ids in scan order, and their numbers. */
  datatype StudentEvents = StudentEvents(
    registeredEvents: seq<int>,
    attendedEvents: seq<int>,
    totalRegistrations: nat,
    totalAttendances: nat)

  /** The event of each record, kept as its id where the route returns the
      event object itself. */
  function EventOfRegistration(r: Row<Registration>): int {
    r.val.eventId
  }

  function EventOfAttendance(a: Row<Attendance>): int {
    a.val.eventId
  }

  function GetStudentEvents(d: Db, studentId: int): Outcome<StudentEvents> {
    if !HasId(d.students, studentId) then NotFound
    else
      var regs := Filter(d.registrations, RegisteredBy(studentId));
      var atts := Filter(d.attendances, AttendedBy(studentId));
      var re := Map(regs, EventOfRegistration);
      var ae := Map(atts, EventOfAttendance);
      Ok(StudentEvents(re, ae, |re|, |ae|))
  }

  function ConfirmedBy(studentId: int): Row<Registration> -> bool {
    (r: Row<Registration>) => r.val.studentId == studentId && r.val.status == RegistrationStatus.Confirmed
  }

  function CancelledBy(studentId: int): Row<Registration> -> bool {
    (r: Row<Registration>) => r.val.studentId == studentId && r.val.status == RegistrationStatus.Cancelled
  }

  /** Registrations are counted whatever their status: the total is the
      confirmed ones plus the cancelled ones; every attendance is counted. */
  lemma StudentEventCounts(d: Db, studentId: int)
    ensures var r := GetStudentEvents(d, studentId);
      && (r.NotFound? <==> !HasId(d.students, studentId))
      && (r.Ok? ==>
            && r.value.totalRegistrations == |r.value.registeredEvents|
            && r.value.totalRegistrations
               == Count(d.registrations, ConfirmedBy(studentId)) + Count(d.registrations, CancelledBy(studentId))
            && r.value.totalAttendances == |r.value.attendedEvents| == Count(d.attendances, AttendedBy(studentId))
            && (forall e :: e in r.value.registeredEvents <==>
                  exists x :: x in d.registrations && x.val.studentId == studentId && x.val.eventId == e)
            && (forall e :: e in r.value.attendedEvents <==>
                  exists x :: x in d.attendances && x.val.studentId == studentId && x.val.eventId == e))
  {
    if HasId(d.students, studentId) {
      CountSplit(d.registrations, RegisteredBy(studentId), ConfirmedBy(studentId), CancelledBy(studentId));
      var regs := Filter(d.registrations, RegisteredBy(studentId));
      var atts := Filter(d.attendances, AttendedBy(studentId));
      MapMembers(regs, EventOfRegistration);
      MapMembers(atts, EventOfAttendance);
    }
  }
}
