/** Three constraints a reader might expect of the database that its
    operations do NOT keep, each shown by a step that is allowed from a
    valid snapshot, and a concrete such snapshot. */
module Scenarios {
  import opened Tables
  import opened Models
  import Registrations
  import Attendances
  import Events

  /** An update that supplies only the capacity. */
  function CapacityOnly(capacity: int): Events.EventPatch {
    Events.EventPatch(None, None, None, None, None, None, None, Some(capacity), None)
  }

  /** update_event does not compare the new capacity with the confirmed
      registrations: with two of them a capacity of 1 is accepted, leaving
      more confirmed registrations than places. */
  lemma CapacityBelowConfirmed(d: Db, eventId: int, today: int)
    requires Invariants(d) && HasId(d.events, eventId)
    requires ConfirmedCount(d.registrations, eventId) >= 2
    ensures var s := Events.UpdateEvent(d, eventId, CapacityOnly(1), today);
      && s.outcome.Ok? && Invariants(s.db)
      && s.outcome.value.val.maxCapacity == 1 < ConfirmedCount(s.db.registrations, eventId)
  {
    var e := Get(d.events, eventId).value;
    assert Row(eventId, e) in d.events;
    assert TimesOrdered(e.startTime, e.endTime);
    Events.UpdatePreserves(d, eventId, CapacityOnly(1), today);
  }

  /** delete_attendance has no guard: the feedback the attendance allowed
      stays behind without it. */
  lemma FeedbackOutlivesAttendance(d: Db, a: Row<Attendance>, f: Row<Feedback>)
    requires Invariants(d) && a in d.attendances && f in d.feedback
    requires f.val.studentId == a.val.studentId && f.val.eventId == a.val.eventId
    ensures var s := Attendances.DeleteAttendance(d, a.id);
      && s.outcome.Ok? && Invariants(s.db)
      && HasFeedback(s.db.feedback, a.val.studentId, a.val.eventId)
      && !HasAttendance(s.db.attendances, a.val.studentId, a.val.eventId)
  {
    DeleteOnlyAttendance(d, a);
    Attendances.DeleteAttendancePreserves(d, a.id);
    assert Attendances.DeleteAttendance(d, a.id).db.feedback == d.feedback;
  }

  /** Deleting an attendance by its key removes the pair's only attendance. */
  lemma DeleteOnlyAttendance(d: Db, a: Row<Attendance>)
    requires DistinctIds(d.attendances) && AttendancePairsUnique(d.attendances) && a in d.attendances
    ensures var s := Attendances.DeleteAttendance(d, a.id);
      && s.outcome.Ok? && s.db.feedback == d.feedback
      && !HasAttendance(s.db.attendances, a.val.studentId, a.val.eventId)
  {
    var t := d.attendances;
    var k := IndexOf(t, a.id);
    assert HasId(t, a.id) by {
      var i :| 0 <= i < |t| && t[i] == a;
    }
    SameKeySameRow(t, a, t[k]);
    RemoveLastOfPair(t, k);
  }

  /** Removing the attendance of a pair leaves the pair without one. */
  lemma RemoveLastOfPair(t: Table<Attendance>, k: int)
    requires DistinctIds(t) && AttendancePairsUnique(t) && 0 <= k < |t|
    ensures !HasAttendance(RemoveAt(t, k), t[k].val.studentId, t[k].val.eventId)
  {
    assert t[k] in t;
  }

  /** cancel_registration only refuses past events, so on the event day a
      registration that was attended can be cancelled: the attendance stays
      while no confirmed registration of the pair remains. */
  lemma AttendanceOutlivesConfirmation(d: Db, r: Row<Registration>, today: int)
    requires Invariants(d) && r in d.registrations
    requires r.val.status == RegistrationStatus.Confirmed
    requires HasAttendance(d.attendances, r.val.studentId, r.val.eventId)
    requires exists e :: e in d.events && e.id == r.val.eventId && e.val.date >= today
    ensures var s := Registrations.CancelRegistration(d, r.id, today);
      && s.outcome.Ok? && Invariants(s.db)
      && HasAttendance(s.db.attendances, r.val.studentId, r.val.eventId)
      && !HasConfirmedRegistration(s.db.registrations, r.val.studentId, r.val.eventId)
  {
    CancelAllowed(d, r, today);
    Registrations.CancelPreserves(d, r.id, today);
    CancelLeavesNoConfirmed(d.registrations, IndexOf(d.registrations, r.id));
  }

  /** A confirmed registration of an event not yet past is cancelled in place. */
  lemma CancelAllowed(d: Db, r: Row<Registration>, today: int)
    requires DistinctIds(d.registrations) && DistinctIds(d.events) && r in d.registrations
    requires r.val.status == RegistrationStatus.Confirmed
    requires exists e :: e in d.events && e.id == r.val.eventId && e.val.date >= today
    ensures var s := Registrations.CancelRegistration(d, r.id, today);
      var k := IndexOf(d.registrations, r.id);
      && 0 <= k && d.registrations[k] == r
      && s.outcome.Ok?
      && s.db == d.(registrations := UpdateAt(d.registrations, k, r.val.(status := RegistrationStatus.Cancelled)))
  {
    var t := d.registrations;
    var k := IndexOf(t, r.id);
    assert HasId(t, r.id) by {
      var i :| 0 <= i < |t| && t[i] == r;
    }
    SameKeySameRow(t, r, t[k]);
    var e :| e in d.events && e.id == r.val.eventId && e.val.date >= today;
    var g := Get(d.events, r.val.eventId).value;
    SameKeySameRow(d.events, e, Row(e.id, g));
  }

  /** Cancelling the one registration of a pair leaves it no confirmed one. */
  lemma CancelLeavesNoConfirmed(t: Table<Registration>, k: int)
    requires DistinctIds(t) && RegistrationPairsUnique(t) && 0 <= k < |t|
    ensures !HasConfirmedRegistration(UpdateAt(t, k, t[k].val.(status := RegistrationStatus.Cancelled)),
                                      t[k].val.studentId, t[k].val.eventId)
  {
    var t' := UpdateAt(t, k, t[k].val.(status := RegistrationStatus.Cancelled));
    assert t[k] in t;
    forall j | 0 <= j < |t| && t[j].val.studentId == t[k].val.studentId && t[j].val.eventId == t[k].val.eventId
      ensures j == k
    {
      assert t[j] in t;
    }
    forall x | x in t' && x.val.studentId == t[k].val.studentId && x.val.eventId == t[k].val.eventId
      ensures x.val.status == RegistrationStatus.Cancelled
    {
      var j :| 0 <= j < |t'| && t'[j] == x;
    }
  }

  // ---------------------------------------------------------------------
  // One event, two students who both registered and attended; the first
  // also left feedback.

  const BothAttended: Db := Db(
    [Row(1, College("C", None, None, 0))],
    [Row(1, Student("A", "a@x", 1, None, None, 0)), Row(2, Student("B", "b@x", 1, None, None, 0))],
    [Row(1, Event("Talk", None, Seminar, 10, None, None, None, 1, 2, EventStatus.Active, 0))],
    [Row(1, Registration(1, 1, 0, RegistrationStatus.Confirmed)),
     Row(2, Registration(2, 1, 0, RegistrationStatus.Confirmed))],
    [Row(1, Attendance(1, 1, 5)), Row(2, Attendance(2, 1, 5))],
    [Row(1, Feedback(1, 1, 4, None, 6))])

  lemma BothAttendedValid()
    ensures Invariants(BothAttended)
  {
    BothAttendedKeys();
    BothAttendedPairs();
    BothAttendedReferences();
    BothAttendedChain();
    BothAttendedFields();
  }

  lemma BothAttendedKeys()
    ensures KeysUnique(BothAttended)
    ensures CollegeNamesUnique(BothAttended.colleges) && EmailsUnique(BothAttended.students)
  {
    var d := BothAttended;
    assert forall x :: x in d.colleges ==> x == d.colleges[0];
    assert forall x :: x in d.students ==> x == d.students[0] || x == d.students[1];
  }

  lemma BothAttendedPairs()
    ensures RegistrationPairsUnique(BothAttended.registrations)
    ensures AttendancePairsUnique(BothAttended.attendances)
    ensures FeedbackPairsUnique(BothAttended.feedback)
  {
    var d := BothAttended;
    assert forall x :: x in d.registrations ==> x == d.registrations[0] || x == d.registrations[1];
    assert forall x :: x in d.attendances ==> x == d.attendances[0] || x == d.attendances[1];
    assert forall x :: x in d.feedback ==> x == d.feedback[0];
  }

  lemma BothAttendedReferences()
    ensures ReferencesResolve(BothAttended)
  {
    var d := BothAttended;
    assert HasId(d.colleges, 1) && HasId(d.students, 1) && HasId(d.students, 2) && HasId(d.events, 1) by {
      assert d.colleges[0].id == 1 && d.students[0].id == 1 && d.students[1].id == 2 && d.events[0].id == 1;
    }
    assert forall x :: x in d.students ==> x.val.collegeId == 1 by {
      assert forall x :: x in d.students ==> x == d.students[0] || x == d.students[1];
    }
    assert forall x :: x in d.events ==> x.val.collegeId == 1 by {
      assert forall x :: x in d.events ==> x == d.events[0];
    }
    assert forall x :: x in d.registrations ==> x.val.eventId == 1 && 1 <= x.val.studentId <= 2 by {
      assert forall x :: x in d.registrations ==> x == d.registrations[0] || x == d.registrations[1];
    }
  }

  lemma BothAttendedChain()
    ensures ChainHolds(BothAttended)
  {
    var d := BothAttended;
    assert forall x :: x in d.attendances ==> x == d.attendances[0] || x == d.attendances[1];
    assert forall x :: x in d.feedback ==> x == d.feedback[0];
    assert d.registrations[0] in d.registrations && d.registrations[1] in d.registrations;
  }

  lemma BothAttendedFields()
    ensures FieldsInRange(BothAttended)
  {
    var d := BothAttended;
    assert forall x :: x in d.students ==> x == d.students[0] || x == d.students[1];
    assert forall x :: x in d.events ==> x == d.events[0];
    assert forall x :: x in d.feedback ==> x == d.feedback[0];
  }

  lemma CountPair<T(!new)>(x: T, y: T, p: T -> bool)
    ensures Count([x, y], p) == (if p(x) then 1 else 0) + (if p(y) then 1 else 0)
  {
    assert [x, y] == [x] + [y] && [x] == [] + [x];
    FilterAppend([], x, p);
    FilterAppend([x], y, p);
  }

  /** On the event day (10) the second student cancels: the attendance stays
      without a confirmed registration, and the event then has two
      attendances against one confirmed registration, an attendance
      percentage of 200. */
  lemma BothAttendedCancel()
    ensures var s := Registrations.CancelRegistration(BothAttended, 2, 10);
      && s.outcome.Ok?
      && var v := Attendances.EventAttendances(s.db, 1);
         v.Ok? && v.value.totalAttendances == 2 && v.value.totalRegistrations == 1
         && v.value.percentage == 200.0
  {
    var d := BothAttended;
    var cancelled := Row(2, d.registrations[1].val.(status := RegistrationStatus.Cancelled));
    var d' := d.(registrations := [d.registrations[0], cancelled]);
    BothAttendedCancelStep();
    Attendances.EventAttendancesRate(d', 1);
    CountPair(d.registrations[0], cancelled, ConfirmedAt(1));
    CountPair(d.attendances[0], d.attendances[1], AttendedAt(1));
    assert d'.events[0].id == 1;
    assert Percentage(2, 1) == 200.0;
  }

  /** The cancel succeeds and flips the second registration in place. */
  lemma BothAttendedCancelStep()
    ensures var d := BothAttended;
      var cancelled := Row(2, d.registrations[1].val.(status := RegistrationStatus.Cancelled));
      Registrations.CancelRegistration(d, 2, 10)
      == Step(Ok(()), d.(registrations := [d.registrations[0], cancelled]))
  {
    var d := BothAttended;
    var r := d.registrations[1];
    BothAttendedKeys();
    assert d.events[0] in d.events && r in d.registrations;
    CancelAllowed(d, r, 10);
    assert IndexOf(d.registrations, 2) == 1;
    var t' := UpdateAt(d.registrations, 1, r.val.(status := RegistrationStatus.Cancelled));
    assert t'[0] == d.registrations[0];
  }

  /** Deleting the first student's attendance leaves their feedback. */
  lemma BothAttendedDeleteAttendance()
    ensures var s := Attendances.DeleteAttendance(BothAttended, 1);
      && s.outcome.Ok? && HasFeedback(s.db.feedback, 1, 1) && !HasAttendance(s.db.attendances, 1, 1)
  {
    var d := BothAttended;
    BothAttendedValid();
    assert d.attendances[0] in d.attendances && d.feedback[0] in d.feedback;
    FeedbackOutlivesAttendance(d, d.attendances[0], d.feedback[0]);
  }

  /** Two confirmed registrations, and the capacity lowered to one. */
  lemma BothAttendedOverbooked()
    ensures var s := Events.UpdateEvent(BothAttended, 1, CapacityOnly(1), 10);
      && s.outcome.Ok? && s.outcome.value.val.maxCapacity == 1
      && ConfirmedCount(s.db.registrations, 1) == 2
  {
    var d := BothAttended;
    assert IndexOf(d.events, 1) == 0;
    CountPair(d.registrations[0], d.registrations[1], ConfirmedAt(1));
  }
}
