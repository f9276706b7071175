/** Marking attendance one student at a time and in bulk, deleting an
    attendance record, and the attendance summary of one event. */
module Attendances {
  import opened Tables
  import opened Models

  /** mark_attendance: the checks in the order the route makes them; the
      date check comes last, after the duplicate check. */
  function MarkAttendance(d: Db, studentId: int, eventId: int, today: int, now: int)
    : (step: Step<Row<Attendance>>)
    ensures !step.outcome.Ok? ==> step.db == d
    ensures step.outcome.Ok? ==> step.db == d.(attendances := d.attendances + [step.outcome.value])
  {
    if !HasId(d.students, studentId) then Step(NotFound, d)
    else
      match Get(d.events, eventId)
      case None => Step(NotFound, d)
      case Some(ev) =>
        if !HasConfirmedRegistration(d.registrations, studentId, eventId) then Step(BusinessRule, d)
        else if HasAttendance(d.attendances, studentId, eventId) then Step(Conflict, d)
        else if ev.date > today then Step(BusinessRule, d)
        else
          var atts := Insert(d.attendances, Attendance(studentId, eventId, now));
          Step(Ok(atts[|d.attendances|]), d.(attendances := atts))
  }

  /** Which error a caller sees: a duplicate mark for a future event is a
      Conflict, and an event dated today is accepted. */
  lemma MarkOutcomes(d: Db, studentId: int, eventId: int, today: int, now: int)
    ensures var s := MarkAttendance(d, studentId, eventId, today, now);
      && (!HasId(d.students, studentId) ==> s.outcome == NotFound)
      && (HasId(d.students, studentId) && !HasId(d.events, eventId) ==> s.outcome == NotFound)
      && (HasId(d.students, studentId) && HasId(d.events, eventId) ==>
            var ev := Get(d.events, eventId).value;
            var confirmed := HasConfirmedRegistration(d.registrations, studentId, eventId);
            var marked := HasAttendance(d.attendances, studentId, eventId);
            && (!confirmed ==> s.outcome == BusinessRule)
            && (confirmed && marked ==> s.outcome == Conflict)
            && (confirmed && !marked ==> (s.outcome == BusinessRule <==> ev.date > today))
            && (s.outcome.Ok? <==> confirmed && !marked && ev.date <= today))
      && (s.outcome.Ok? || s.db == d)
  {
  }

  /** A cancelled registration does not qualify: its holder is refused. */
  lemma MarkCancelledRefused(d: Db, r: Row<Registration>, today: int, now: int)
    requires Invariants(d)
    requires r in d.registrations && r.val.status == RegistrationStatus.Cancelled
    ensures MarkAttendance(d, r.val.studentId, r.val.eventId, today, now).outcome == BusinessRule
  {
    var sid, eid := r.val.studentId, r.val.eventId;
    if HasConfirmedRegistration(d.registrations, sid, eid) {
      var c :| c in d.registrations && c.val.studentId == sid && c.val.eventId == eid
               && c.val.status == RegistrationStatus.Confirmed;
      SameKeySameRow(d.registrations, c, r);
    }
    assert HasId(d.students, sid) && HasId(d.events, eid);
  }

  /** A successful mark adds exactly one attendance for the pair and changes
      nothing else. */
  lemma MarkAddsOne(d: Db, studentId: int, eventId: int, today: int, now: int)
    ensures var s := MarkAttendance(d, studentId, eventId, today, now);
      s.outcome.Ok? ==>
        && s.db == d.(attendances := d.attendances + [s.outcome.value])
        && s.outcome.value.val == Attendance(studentId, eventId, now)
        && !HasId(d.attendances, s.outcome.value.id)
        && Count(s.db.attendances, AttendedAt(eventId)) == Count(d.attendances, AttendedAt(eventId)) + 1
  {
    var s := MarkAttendance(d, studentId, eventId, today, now);
    if s.outcome.Ok? {
      FilterAppend(d.attendances, s.outcome.value, AttendedAt(eventId));
    }
  }

  lemma MarkPreserves(d: Db, studentId: int, eventId: int, today: int, now: int)
    ensures Invariants(d) ==> Invariants(MarkAttendance(d, studentId, eventId, today, now).db)
  {
    if Invariants(d) && MarkAttendance(d, studentId, eventId, today, now).outcome.Ok? {
      ConfirmedIsRegistered(d.registrations, studentId, eventId);
      AddAttendancePreserves(d, Attendance(studentId, eventId, now));
    }
  }

  lemma ConfirmedIsRegistered(t: Table<Registration>, studentId: int, eventId: int)
    ensures HasConfirmedRegistration(t, studentId, eventId) ==> HasRegistration(t, studentId, eventId)
  {
    if HasConfirmedRegistration(t, studentId, eventId) {
      var c :| c in t && c.val.studentId == studentId && c.val.eventId == eventId
               && c.val.status == RegistrationStatus.Confirmed;
    }
  }

  /** Adding an attendance for a registered pair not yet marked keeps every constraint. */
  lemma AddAttendancePreserves(d: Db, v: Attendance)
    requires Invariants(d)
    requires HasRegistration(d.registrations, v.studentId, v.eventId)
    requires !HasAttendance(d.attendances, v.studentId, v.eventId)
    ensures Invariants(d.(attendances := Insert(d.attendances, v)))
  {
    var t' := Insert(d.attendances, v);
    InsertKeepsAttendancePairs(d.attendances, v);
    assert forall a :: a in t' ==> a in d.attendances || a == Row(FreshId(d.attendances), v);
  }

  lemma InsertKeepsAttendancePairs(t: Table<Attendance>, v: Attendance)
    requires AttendancePairsUnique(t) && !HasAttendance(t, v.studentId, v.eventId)
    ensures AttendancePairsUnique(Insert(t, v))
  {
    var t' := Insert(t, v);
    var y := Row(FreshId(t), v);
    forall a, b | a in t' && b in t' && a.val.studentId == b.val.studentId
                  && a.val.eventId == b.val.eventId
      ensures a.id == b.id
    {
      if (a == y) != (b == y) {
        assert false;
      }
    }
  }

  // ---------------------------------------------------------------------
  // Bulk marking (bulk_mark_attendance)

  datatype BulkError = NotRegistered(studentId: int) | AlreadyMarked(studentId: int)

  /** The response data: success_count and the error list (error_count is its length). */
  datatype BulkSummary = BulkSummary(successCount: nat, errors: seq<BulkError>)

  /** The loop's variables after a prefix of the ids: the count, the errors,
      and the attendance table with the pending additions. */
  datatype BulkProgress =
    BulkProgress(successCount: nat, errors: seq<BulkError>, attendances: Table<Attendance>)

  /** The per-id test. Both queries run against the store as it was before
      the batch: pending additions are not flushed, and the student table is
      not consulted. */
  predicate Qualifies(d: Db, eventId: int, studentId: int) {
    HasConfirmedRegistration(d.registrations, studentId, eventId)
    && !HasAttendance(d.attendances, studentId, eventId)
  }

  function QualifyingFor(d: Db, eventId: int): int -> bool {
    (sid: int) => Qualifies(d, eventId, sid)
  }

  function RefusedFor(d: Db, eventId: int): int -> bool {
    (sid: int) => !Qualifies(d, eventId, sid)
  }

  /** The error entry of an id that does not qualify. */
  function ErrorFor(d: Db, eventId: int, studentId: int): BulkError {
    if !HasConfirmedRegistration(d.registrations, studentId, eventId) then NotRegistered(studentId)
    else AlreadyMarked(studentId)
  }

  /** One iteration of the loop body. */
  function BulkItem(d: Db, eventId: int, now: int, p: BulkProgress, studentId: int): BulkProgress {
    if !HasConfirmedRegistration(d.registrations, studentId, eventId) then
      p.(errors := p.errors + [NotRegistered(studentId)])
    else if HasAttendance(d.attendances, studentId, eventId) then
      p.(errors := p.errors + [AlreadyMarked(studentId)])
    else
      BulkProgress(p.successCount + 1, p.errors,
                   Insert(p.attendances, Attendance(studentId, eventId, now)))
  }

  /** The loop over all ids, from the state before the batch. */
  function BulkLoop(d: Db, eventId: int, ids: seq<int>, now: int): BulkProgress
    decreases |ids|
  {
    if |ids| == 0 then BulkProgress(0, [], d.attendances)
    else BulkItem(d, eventId, now, BulkLoop(d, eventId, ids[..|ids| - 1], now), ids[|ids| - 1])
  }

  /** bulk_mark_attendance: the event checks fail the whole batch before any id is looked at. */
  function BulkMarkAttendance(d: Db, eventId: int, ids: seq<int>, today: int, now: int)
    : (step: Step<BulkSummary>)
    ensures !step.outcome.Ok? ==> step.db == d
    ensures step.outcome.Ok? ==> step.db == d.(attendances := BulkLoop(d, eventId, ids, now).attendances)
  {
    match Get(d.events, eventId)
    case None => Step(NotFound, d)
    case Some(ev) =>
      if ev.date > today then Step(BusinessRule, d)
      else
        var p := BulkLoop(d, eventId, ids, now);
        Step(Ok(BulkSummary(p.successCount, p.errors)), d.(attendances := p.attendances))
  }

  lemma BulkOutcomes(d: Db, eventId: int, ids: seq<int>, today: int, now: int)
    ensures var s := BulkMarkAttendance(d, eventId, ids, today, now);
      && (!HasId(d.events, eventId) ==> s.outcome == NotFound && s.db == d)
      && (HasId(d.events, eventId) && Get(d.events, eventId).value.date > today ==>
            s.outcome == BusinessRule && s.db == d)
      && (HasId(d.events, eventId) && Get(d.events, eventId).value.date <= today ==> s.outcome.Ok?)
      && s.db.colleges == d.colleges && s.db.students == d.students && s.db.events == d.events
      && s.db.registrations == d.registrations && s.db.feedback == d.feedback
  {
  }

  /** Every id yields exactly one outcome. The new attendances are, in order,
      those of the qualifying ids, appended after the existing rows; the
      errors are, in order, those of the other ids, each saying why. */
  lemma BulkLoopOutcomes(d: Db, eventId: int, ids: seq<int>, now: int)
    ensures var p := BulkLoop(d, eventId, ids, now);
      var added := Filter(ids, QualifyingFor(d, eventId));
      var refused := Filter(ids, RefusedFor(d, eventId));
      && p.successCount + |p.errors| == |ids|
      && p.successCount == |added|
      && |p.errors| == |refused|
      && |p.attendances| == |d.attendances| + p.successCount
      && p.attendances[..|d.attendances|] == d.attendances
      && (forall j :: 0 <= j < |added| ==>
            p.attendances[|d.attendances| + j].val == Attendance(added[j], eventId, now))
      && (forall j :: 0 <= j < |refused| ==> p.errors[j] == ErrorFor(d, eventId, refused[j]))
  {
    BulkLoopAdded(d, eventId, ids, now);
    BulkLoopErrors(d, eventId, ids, now);
  }

  lemma {:induction false} BulkLoopAdded(d: Db, eventId: int, ids: seq<int>, now: int)
    ensures var p := BulkLoop(d, eventId, ids, now);
      var added := Filter(ids, QualifyingFor(d, eventId));
      && p.successCount == |added|
      && |p.attendances| == |d.attendances| + p.successCount
      && p.attendances[..|d.attendances|] == d.attendances
      && (forall j :: 0 <= j < |added| ==>
            p.attendances[|d.attendances| + j].val == Attendance(added[j], eventId, now))
    decreases |ids|
  {
    if |ids| > 0 {
      var ids' := ids[..|ids| - 1];
      var sid := ids[|ids| - 1];
      BulkLoopAdded(d, eventId, ids', now);
      var q := BulkLoop(d, eventId, ids', now);
      var p := BulkLoop(d, eventId, ids, now);
      assert p == BulkItem(d, eventId, now, q, sid);
      var added' := Filter(ids', QualifyingFor(d, eventId));
      if Qualifies(d, eventId, sid) {
        assert Filter(ids, QualifyingFor(d, eventId)) == added' + [sid];
        assert p.attendances == q.attendances + [Row(FreshId(q.attendances), Attendance(sid, eventId, now))];
      } else {
        assert Filter(ids, QualifyingFor(d, eventId)) == added';
      }
    }
  }

  lemma {:induction false} BulkLoopErrors(d: Db, eventId: int, ids: seq<int>, now: int)
    ensures var p := BulkLoop(d, eventId, ids, now);
      var refused := Filter(ids, RefusedFor(d, eventId));
      && p.successCount + |p.errors| == |ids|
      && |p.errors| == |refused|
      && (forall j :: 0 <= j < |refused| ==> p.errors[j] == ErrorFor(d, eventId, refused[j]))
    decreases |ids|
  {
    if |ids| > 0 {
      var ids' := ids[..|ids| - 1];
      var sid := ids[|ids| - 1];
      BulkLoopErrors(d, eventId, ids', now);
      var q := BulkLoop(d, eventId, ids', now);
      var p := BulkLoop(d, eventId, ids, now);
      assert p == BulkItem(d, eventId, now, q, sid);
      var refused' := Filter(ids', RefusedFor(d, eventId));
      if Qualifies(d, eventId, sid) {
        assert Filter(ids, RefusedFor(d, eventId)) == refused';
      } else {
        assert Filter(ids, RefusedFor(d, eventId)) == refused' + [sid];
        assert p.errors == q.errors + [ErrorFor(d, eventId, sid)];
      }
    }
  }

  /** What the loop keeps of the constraints when the ids are distinct: every
      row is an old one or a pending addition for a qualifying id, keys stay
      distinct and no pair is marked twice. */
  lemma {:induction false} BulkLoopKeeps(d: Db, eventId: int, ids: seq<int>, now: int)
    requires DistinctIds(d.attendances) && AttendancePairsUnique(d.attendances) && Distinct(ids)
    ensures var t := BulkLoop(d, eventId, ids, now).attendances;
      && DistinctIds(t)
      && AttendancePairsUnique(t)
      && (forall a :: a in t ==>
            a in d.attendances
            || (a.val.eventId == eventId && a.val.studentId in ids && Qualifies(d, eventId, a.val.studentId)))
    decreases |ids|
  {
    if |ids| > 0 {
      var ids' := ids[..|ids| - 1];
      var sid := ids[|ids| - 1];
      assert Distinct(ids');
      BulkLoopKeeps(d, eventId, ids', now);
      var q := BulkLoop(d, eventId, ids', now);
      if Qualifies(d, eventId, sid) {
        var t := q.attendances;
        var v := Attendance(sid, eventId, now);
        assert BulkLoop(d, eventId, ids, now).attendances == Insert(t, v);
        assert sid !in ids' by {
          if sid in ids' {
            assert false;
          }
        }
        assert !HasAttendance(t, sid, eventId) by {
          forall a | a in t && a.val.studentId == sid && a.val.eventId == eventId
            ensures false
          {
            if a in d.attendances {
              assert false;
            }
          }
        }
        InsertKeepsAttendancePairs(t, v);
        assert forall x :: x in ids' ==> x in ids;
      }
    }
  }

  /** Bulk marking with distinct ids keeps every constraint of the database. */
  lemma BulkMarkPreserves(d: Db, eventId: int, ids: seq<int>, today: int, now: int)
    ensures Invariants(d) && Distinct(ids) ==> Invariants(BulkMarkAttendance(d, eventId, ids, today, now).db)
  {
    if Invariants(d) && Distinct(ids) {
      var s := BulkMarkAttendance(d, eventId, ids, today, now);
      if s.outcome.Ok? {
        BulkLoopKeeps(d, eventId, ids, now);
        var t := s.db.attendances;
        forall a | a in t
          ensures HasRegistration(d.registrations, a.val.studentId, a.val.eventId)
        {
          if a !in d.attendances {
            var c :| c in d.registrations && c.val.studentId == a.val.studentId
                     && c.val.eventId == a.val.eventId && c.val.status == RegistrationStatus.Confirmed;
          }
        }
      }
    }
  }

  // ---------------------------------------------------------------------
  // Deleting an attendance record

  /** delete_attendance: no dependency is checked. */
  function DeleteAttendance(d: Db, attendanceId: int): (step: Step<()>)
    ensures !step.outcome.Ok? ==> step.db == d
    ensures step.outcome.Ok? ==>
      var k := IndexOf(d.attendances, attendanceId);
      0 <= k && step.db == d.(attendances := RemoveAt(d.attendances, k))
  {
    var k := IndexOf(d.attendances, attendanceId);
    if k < 0 then Step(NotFound, d)
    else Step(Ok(()), d.(attendances := RemoveAt(d.attendances, k)))
  }

  lemma DeleteAttendanceEffect(d: Db, attendanceId: int)
    requires DistinctIds(d.attendances)
    ensures var s := DeleteAttendance(d, attendanceId);
      && (s.outcome == NotFound <==> !HasId(d.attendances, attendanceId))
      && (s.outcome.Ok? <==> HasId(d.attendances, attendanceId))
      && (!s.outcome.Ok? ==> s.db == d)
      && (s.outcome.Ok? ==>
            && s.db == d.(attendances := s.db.attendances)
            && |s.db.attendances| == |d.attendances| - 1
            && forall a :: a in s.db.attendances <==> a in d.attendances && a.id != attendanceId)
  {
  }

  lemma DeleteAttendancePreserves(d: Db, attendanceId: int)
    ensures Invariants(d) ==> Invariants(DeleteAttendance(d, attendanceId).db)
  {
  }

  // ---------------------------------------------------------------------
  // The attendance summary of one event (get_event_attendances)

  datatype AttendanceSummary = AttendanceSummary(
    attendances: Table<Attendance>,
    totalAttendances: nat,
    totalRegistrations: nat,
    percentage: real)

  function EventAttendances(d: Db, eventId: int): Outcome<AttendanceSummary> {
    if !HasId(d.events, eventId) then NotFound
    else
      var atts := Filter(d.attendances, AttendedAt(eventId));
      var confirmed := ConfirmedCount(d.registrations, eventId);
      Ok(AttendanceSummary(atts, |atts|, confirmed, Percentage(|atts|, confirmed)))
  }

  /** The percentage is attended over confirmed times 100, or 0 when nobody
      is confirmed; every attendance of the event is counted. */
  lemma EventAttendancesRate(d: Db, eventId: int)
    ensures var r := EventAttendances(d, eventId);
      && (r.NotFound? <==> !HasId(d.events, eventId))
      && (r.Ok? ==>
            var v := r.value;
            && (forall a :: a in v.attendances <==> a in d.attendances && a.val.eventId == eventId)
            && v.totalAttendances == |v.attendances| == Count(d.attendances, AttendedAt(eventId))
            && v.totalRegistrations == ConfirmedCount(d.registrations, eventId)
            && v.percentage == Percentage(v.totalAttendances, v.totalRegistrations))
  {
  }
}
