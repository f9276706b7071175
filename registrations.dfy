/** Registering for, cancelling and deleting a registration, and the
    per-event registration listing. */
module Registrations {
  import opened Tables
  import opened Models

  /** create_registration: the checks in the order the route makes them. */
  function Register(d: Db, studentId: int, eventId: int, today: int, now: int): (step: Step<Row<Registration>>)
    ensures !step.outcome.Ok? ==> step.db == d
    ensures step.outcome.Ok? ==> step.db == d.(registrations := d.registrations + [step.outcome.value])
  {
    if !HasId(d.students, studentId) then Step(NotFound, d)
    else
      var k := IndexOf(d.events, eventId);
      if k < 0 then Step(NotFound, d)
      else
        var ev := d.events[k].val;
        if ev.status != EventStatus.Active then Step(BusinessRule, d)
        else if ev.date < today then Step(BusinessRule, d)
        else if HasRegistration(d.registrations, studentId, eventId) then Step(Conflict, d)
        else if ConfirmedCount(d.registrations, eventId) >= ev.maxCapacity then Step(Conflict, d)
        else
          var regs := Insert(d.registrations,
                             Registration(studentId, eventId, now, RegistrationStatus.Confirmed));
          Step(Ok(regs[|d.registrations|]), d.(registrations := regs))
  }

  /** cancel_registration: flips the status in place; the record stays. */
  function CancelRegistration(d: Db, registrationId: int, today: int): (step: Step<()>)
    ensures !step.outcome.Ok? ==> step.db == d
    ensures step.outcome.Ok? ==>
      var k := IndexOf(d.registrations, registrationId);
      && 0 <= k
      && step.db == d.(registrations := UpdateAt(d.registrations, k,
                                                 d.registrations[k].val.(status := RegistrationStatus.Cancelled)))
  {
    var k := IndexOf(d.registrations, registrationId);
    if k < 0 then Step(NotFound, d)
    else
      var reg := d.registrations[k].val;
      if reg.status == RegistrationStatus.Cancelled then Step(BusinessRule, d)
      else
        match Get(d.events, reg.eventId)
        case None => Step(ServerError, d)
        case Some(ev) =>
          if ev.date < today then Step(BusinessRule, d)
          else
            Step(Ok(()), d.(registrations := UpdateAt(d.registrations, k,
                                                     reg.(status := RegistrationStatus.Cancelled))))
  }

  /** delete_registration: refused while the same student has an attendance
      or a feedback for the same event. */
  function DeleteRegistration(d: Db, registrationId: int): (step: Step<()>)
    ensures !step.outcome.Ok? ==> step.db == d
    ensures step.outcome.Ok? ==>
      var k := IndexOf(d.registrations, registrationId);
      0 <= k && step.db == d.(registrations := RemoveAt(d.registrations, k))
  {
    var k := IndexOf(d.registrations, registrationId);
    if k < 0 then Step(NotFound, d)
    else
      var reg := d.registrations[k].val;
      if !HasId(d.students, reg.studentId) then Step(ServerError, d)
      else if HasAttendance(d.attendances, reg.studentId, reg.eventId)
         || HasFeedback(d.feedback, reg.studentId, reg.eventId)
      then Step(Conflict, d)
      else Step(Ok(()), d.(registrations := RemoveAt(d.registrations, k)))
  }

  // ---------------------------------------------------------------------
  // Outcomes and effects

  /** The order of the checks decides which error a caller sees. */
  lemma RegisterOutcomes(d: Db, studentId: int, eventId: int, today: int, now: int)
    ensures var s := Register(d, studentId, eventId, today, now);
      && (!HasId(d.students, studentId) ==> s.outcome == NotFound)
      && (HasId(d.students, studentId) && !HasId(d.events, eventId) ==> s.outcome == NotFound)
      && (HasId(d.students, studentId) && HasId(d.events, eventId) ==>
            var ev := Get(d.events, eventId).value;
            && (s.outcome == BusinessRule <==> ev.status != EventStatus.Active || ev.date < today)
            && (s.outcome == Conflict <==>
                  ev.status == EventStatus.Active && ev.date >= today
                  && (HasRegistration(d.registrations, studentId, eventId)
                      || ConfirmedCount(d.registrations, eventId) >= ev.maxCapacity)))
      && (s.outcome.Ok? || s.db == d)
  {
  }

  /** A successful registration adds exactly one confirmed record, raising the
      event's confirmed count by one and no higher than its capacity; the
      count of every other event is unchanged. */
  lemma RegisterAddsOne(d: Db, studentId: int, eventId: int, today: int, now: int, other: int)
    requires other != eventId
    ensures var s := Register(d, studentId, eventId, today, now);
      s.outcome.Ok? ==>
        var ev := Get(d.events, eventId).value;
        && s.db == d.(registrations := d.registrations + [s.outcome.value])
        && s.outcome.value.val == Registration(studentId, eventId, now, RegistrationStatus.Confirmed)
        && !HasId(d.registrations, s.outcome.value.id)
        && ConfirmedCount(s.db.registrations, eventId) == ConfirmedCount(d.registrations, eventId) + 1
        && ConfirmedCount(s.db.registrations, eventId) <= ev.maxCapacity
        && ConfirmedCount(s.db.registrations, other) == ConfirmedCount(d.registrations, other)
  {
    var s := Register(d, studentId, eventId, today, now);
    if s.outcome.Ok? {
      var k := IndexOf(d.events, eventId);
      var v := Registration(studentId, eventId, now, RegistrationStatus.Confirmed);
      var x := Row(FreshId(d.registrations), v);
      assert 0 <= k && ConfirmedCount(d.registrations, eventId) < d.events[k].val.maxCapacity;
      assert s.outcome.value == x;
      FilterAppend(d.registrations, x, ConfirmedAt(eventId));
      FilterAppend(d.registrations, x, ConfirmedAt(other));
    }
  }

  /** Register keeps every constraint of the database. */
  lemma RegisterPreserves(d: Db, studentId: int, eventId: int, today: int, now: int)
    ensures Invariants(d) ==> Invariants(Register(d, studentId, eventId, today, now).db)
  {
    if Invariants(d) && Register(d, studentId, eventId, today, now).outcome.Ok? {
      AddRegistrationPreserves(d, Registration(studentId, eventId, now, RegistrationStatus.Confirmed));
    }
  }

  /** A new registration of an existing student and event, for a pair not
      yet registered, keeps every constraint. */
  lemma AddRegistrationPreserves(d: Db, v: Registration)
    requires Invariants(d) && HasId(d.students, v.studentId) && HasId(d.events, v.eventId)
    requires !HasRegistration(d.registrations, v.studentId, v.eventId)
    ensures Invariants(d.(registrations := Insert(d.registrations, v)))
  {
    var t' := Insert(d.registrations, v);
    InsertKeepsPairsUnique(d.registrations, v);
    RegistrationsGrow(d.registrations, t');
    assert forall r :: r in t' ==> r == Row(FreshId(d.registrations), v) || r in d.registrations;
  }

  lemma InsertKeepsPairsUnique(t: Table<Registration>, v: Registration)
    requires RegistrationPairsUnique(t) && !HasRegistration(t, v.studentId, v.eventId)
    ensures RegistrationPairsUnique(Insert(t, v))
  {
    var t' := Insert(t, v);
    var y := Row(FreshId(t), v);
    forall a, b | a in t' && b in t' && a.val.studentId == b.val.studentId
                  && a.val.eventId == b.val.eventId
      ensures a.id == b.id
    {
      if (a == y) != (b == y) {
        assert false;
      }
    }
  }

  /** A pair registered in a table stays registered in any table holding its rows. */
  lemma RegistrationsGrow(t: Table<Registration>, t': Table<Registration>)
    requires forall r :: r in t ==> r in t'
    ensures forall s, e :: HasRegistration(t, s, e) ==> HasRegistration(t', s, e)
  {
  }

  /** A cancelled record, or one for a past event, is refused; a successful
      cancel changes only that record's status. */
  lemma CancelEffect(d: Db, registrationId: int, today: int)
    requires DistinctIds(d.registrations)
    ensures var s := CancelRegistration(d, registrationId, today);
      && (s.outcome.Ok? ==>
            var k := IndexOf(d.registrations, registrationId);
            && 0 <= k
            && d.registrations[k].val.status == RegistrationStatus.Confirmed
            && s.db == d.(registrations := d.registrations[k := Row(registrationId,
                            d.registrations[k].val.(status := RegistrationStatus.Cancelled))]))
      && (!s.outcome.Ok? ==> s.db == d)
      && (!HasId(d.registrations, registrationId) ==> s.outcome == NotFound)
    ensures var s := CancelRegistration(d, registrationId, today);
      HasId(d.registrations, registrationId) ==>
        var reg := Get(d.registrations, registrationId).value;
        && (reg.status == RegistrationStatus.Cancelled ==> s.outcome == BusinessRule)
        && (reg.status == RegistrationStatus.Confirmed && HasId(d.events, reg.eventId) ==>
              (s.outcome == BusinessRule <==> Get(d.events, reg.eventId).value.date < today))
        && (reg.status == RegistrationStatus.Confirmed && !HasId(d.events, reg.eventId) ==>
              s.outcome == ServerError)
  {
  }

  /** Cancelling frees exactly one place of that event. */
  lemma CancelFreesOne(d: Db, registrationId: int, today: int)
    ensures var s := CancelRegistration(d, registrationId, today);
      s.outcome.Ok? ==>
        var e := Get(d.registrations, registrationId).value.eventId;
        ConfirmedCount(s.db.registrations, e) + 1 == ConfirmedCount(d.registrations, e)
  {
    var s := CancelRegistration(d, registrationId, today);
    if s.outcome.Ok? {
      var t := d.registrations;
      var k := IndexOf(t, registrationId);
      var old_ := t[k];
      var new_ := Row(registrationId, old_.val.(status := RegistrationStatus.Cancelled));
      var e := old_.val.eventId;
      var p := ConfirmedAt(e);
      assert t == t[..k] + [old_] + t[k + 1..];
      assert s.db.registrations == t[..k] + [new_] + t[k + 1..];
      FilterConcat(t[..k] + [old_], t[k + 1..], p);
      FilterConcat(t[..k], [old_], p);
      FilterConcat(t[..k] + [new_], t[k + 1..], p);
      FilterConcat(t[..k], [new_], p);
      assert Filter([old_], p) == [old_] by { FilterAppend([], old_, p); }
      assert Filter([new_], p) == [] by { FilterAppend([], new_, p); }
    }
  }

  lemma CancelPreserves(d: Db, registrationId: int, today: int)
    ensures Invariants(d) ==> Invariants(CancelRegistration(d, registrationId, today).db)
  {
    if Invariants(d) {
      var s := CancelRegistration(d, registrationId, today);
      CancelEffect(d, registrationId, today);
      if s.outcome.Ok? {
        var k := IndexOf(d.registrations, registrationId);
        StatusChangePreserves(d, k, RegistrationStatus.Cancelled);
      }
    }
  }

  /** Changing the status of one registration in place keeps every constraint. */
  /** Rewriting a registration row without moving it to another pair keeps pairs unique. */
  lemma ReviseKeepsRegistrationPairs(t: Table<Registration>, k: int, v: Registration)
    requires DistinctIds(t) && RegistrationPairsUnique(t) && 0 <= k < |t|
    requires v.studentId == t[k].val.studentId && v.eventId == t[k].val.eventId
    ensures RegistrationPairsUnique(UpdateAt(t, k, v))
  {
    var y := Row(t[k].id, v);
    var t' := UpdateAt(t, k, v);
    assert t[k] in t;
    forall a, b | a in t' && b in t' && a.val.studentId == b.val.studentId
                  && a.val.eventId == b.val.eventId
      ensures a.id == b.id
    {
      var a0 := if a == y then t[k] else a;
      var b0 := if b == y then t[k] else b;
      assert a0 in t && b0 in t && a0.id == a.id && b0.id == b.id;
    }
  }

  lemma StatusChangePreserves(d: Db, k: int, status: RegistrationStatus)
    requires Invariants(d) && 0 <= k < |d.registrations|
    ensures Invariants(d.(registrations := UpdateAt(d.registrations, k,
                                                   d.registrations[k].val.(status := status))))
  {
    var t := d.registrations;
    var y := Row(t[k].id, t[k].val.(status := status));
    var t' := UpdateAt(t, k, y.val);
    var d' := d.(registrations := t');
    ReviseKeepsRegistrationPairs(t, k, y.val);
    assert ReferencesResolve(d') by {
      forall r | r in t' ensures HasId(d.students, r.val.studentId) && HasId(d.events, r.val.eventId) {
        if r != y {
          assert r in t;
        } else {
          assert t[k] in t;
        }
      }
    }
    assert forall sid, eid :: HasRegistration(t, sid, eid) ==> HasRegistration(t', sid, eid) by {
      forall sid, eid | HasRegistration(t, sid, eid) ensures HasRegistration(t', sid, eid) {
        var r :| r in t && r.val.studentId == sid && r.val.eventId == eid;
        if r.id == t[k].id {
          SameKeySameRow(t, r, t[k]);
          assert y in t';
        } else {
          assert r in t';
        }
      }
    }
  }

  /** Delete removes exactly the one record, and only when no attendance or
      feedback of that student exists for that event; records of the same
      student's other events do not block it. A record whose student is
      missing fails while the guard reads the student's records. */
  lemma DeleteRegistrationGuard(d: Db, registrationId: int)
    requires DistinctIds(d.registrations)
    ensures var s := DeleteRegistration(d, registrationId);
      && (!HasId(d.registrations, registrationId) ==> s.outcome == NotFound)
      && (HasId(d.registrations, registrationId) ==>
            var reg := Get(d.registrations, registrationId).value;
            && (s.outcome == ServerError <==> !HasId(d.students, reg.studentId))
            && (s.outcome == Conflict <==>
                  HasId(d.students, reg.studentId)
                  && (HasAttendance(d.attendances, reg.studentId, reg.eventId)
                      || HasFeedback(d.feedback, reg.studentId, reg.eventId)))
            && (s.outcome.Ok? ==>
                  s.db.attendances == d.attendances && s.db.feedback == d.feedback
                  && s.db.events == d.events && s.db.students == d.students
                  && (forall r :: r in s.db.registrations <==>
                                    r in d.registrations && r.id != registrationId)))
      && (!s.outcome.Ok? ==> s.db == d)
  {
  }

  /** Cancel and delete read the registration's event and student; when every
      reference resolves, neither of them fails that way. */
  lemma ResolvedRegistrationsNeverFail(d: Db, registrationId: int, today: int)
    requires ReferencesResolve(d)
    ensures CancelRegistration(d, registrationId, today).outcome != ServerError
    ensures DeleteRegistration(d, registrationId).outcome != ServerError
  {
    var k := IndexOf(d.registrations, registrationId);
    if 0 <= k {
      assert d.registrations[k] in d.registrations;
    }
  }

  lemma DeleteRegistrationPreserves(d: Db, registrationId: int)
    ensures Invariants(d) ==> Invariants(DeleteRegistration(d, registrationId).db)
  {
    if Invariants(d) && DeleteRegistration(d, registrationId).outcome.Ok? {
      var t := d.registrations;
      var k := IndexOf(t, registrationId);
      forall a | a in d.attendances
        ensures HasRegistration(RemoveAt(t, k), a.val.studentId, a.val.eventId)
      {
        RemoveKeepsOtherPairs(t, k, a.val.studentId, a.val.eventId);
      }
      forall f | f in d.feedback
        ensures HasRegistration(RemoveAt(t, k), f.val.studentId, f.val.eventId)
      {
        RemoveKeepsOtherPairs(t, k, f.val.studentId, f.val.eventId);
      }
    }
  }

  /** Removing a row keeps every other pair registered. */
  lemma RemoveKeepsOtherPairs(t: Table<Registration>, k: int, studentId: int, eventId: int)
    requires DistinctIds(t) && 0 <= k < |t| && HasRegistration(t, studentId, eventId)
    requires t[k].val.studentId != studentId || t[k].val.eventId != eventId
    ensures HasRegistration(RemoveAt(t, k), studentId, eventId)
  {
    var r :| r in t && r.val.studentId == studentId && r.val.eventId == eventId;
    assert r in RemoveAt(t, k);
  }

  // ---------------------------------------------------------------------
  // Multi-step facts

  /** Registering a second time for the same event is a Conflict. */
  lemma RegisterAgainConflicts(d: Db, studentId: int, eventId: int, today: int, now: int, later: int)
    requires Register(d, studentId, eventId, today, now).outcome.Ok?
    ensures var d1 := Register(d, studentId, eventId, today, now).db;
      Register(d1, studentId, eventId, today, later).outcome == Conflict
  {
    var s := Register(d, studentId, eventId, today, now);
    assert s.outcome.value in s.db.registrations;
  }

  /** A cancelled slot can never be re-taken: after a cancel, registering the
      same pair answers exactly what it answered before the cancel, which is
      never a success. */
  lemma CancelledSlotNotRetaken(d: Db, registrationId: int, today: int, today2: int, now: int)
    requires CancelRegistration(d, registrationId, today).outcome.Ok?
    ensures var reg := Get(d.registrations, registrationId).value;
            var d1 := CancelRegistration(d, registrationId, today).db;
      && Register(d1, reg.studentId, reg.eventId, today2, now).outcome
         == Register(d, reg.studentId, reg.eventId, today2, now).outcome
      && !Register(d1, reg.studentId, reg.eventId, today2, now).outcome.Ok?
  {
    var t := d.registrations;
    var k := IndexOf(t, registrationId);
    var d1 := CancelRegistration(d, registrationId, today).db;
    assert t[k] in t;
    assert d1.registrations[k] in d1.registrations;
  }

  /** Cancelling twice: the second call is a business-rule violation. */
  lemma CancelTwiceFails(d: Db, registrationId: int, today: int, today2: int)
    requires CancelRegistration(d, registrationId, today).outcome.Ok?
    ensures var d1 := CancelRegistration(d, registrationId, today).db;
      CancelRegistration(d1, registrationId, today2).outcome == BusinessRule
  {
    var t := d.registrations;
    var k := IndexOf(t, registrationId);
    var t' := CancelRegistration(d, registrationId, today).db.registrations;
    assert IndexOf(t', registrationId) == k;
  }

  // ---------------------------------------------------------------------
  // The registration listing of one event (get_event_registrations)

  datatype RegistrationListing = RegistrationListing(
    registrations: Table<Registration>,
    totalRegistrations: nat,
    availableSpots: int)

  /** Registrations of the event, optionally narrowed to one status; an empty
      status string is no filter. */
  function ListedAt(eventId: int, status: Option<string>): Row<Registration> -> bool {
    (r: Row<Registration>) =>
      r.val.eventId == eventId
      && (status.None? || status.value == "" || RegistrationStatusName(r.val.status) == status.value)
  }

  /** The listing as the route computes it: available_spots counts the
      confirmed rows of the already status-filtered list, and a missing event
      is an uncaught error, because the query parameter `status` hides the
      module whose 404 code the route means to raise. */
  function EventRegistrationsAsWritten(d: Db, eventId: int, status: Option<string>)
    : Outcome<RegistrationListing>
  {
    match Get(d.events, eventId)
    case None => ServerError
    case Some(ev) =>
      var listed := Filter(d.registrations, ListedAt(eventId, status));
      Ok(RegistrationListing(listed, |listed|, ev.maxCapacity - Count(listed, ConfirmedAt(eventId))))
  }

  /** The listing with available_spots taken over all of the event's
      confirmed registrations, whatever the status filter. */
  function EventRegistrations(d: Db, eventId: int, status: Option<string>): Outcome<RegistrationListing> {
    match Get(d.events, eventId)
    case None => NotFound
    case Some(ev) =>
      var listed := Filter(d.registrations, ListedAt(eventId, status));
      Ok(RegistrationListing(listed, |listed|, ev.maxCapacity - ConfirmedCount(d.registrations, eventId)))
  }

  /** The corrected listing's spots are capacity minus confirmed, for every
      status filter; the listed rows are exactly those of the event that pass
      the filter. */
  lemma EventRegistrationsSpots(d: Db, eventId: int, status: Option<string>)
    ensures var r := EventRegistrations(d, eventId, status);
      && (r.NotFound? <==> !HasId(d.events, eventId))
      && (r.Ok? ==>
            && r.value.availableSpots
               == Get(d.events, eventId).value.maxCapacity - ConfirmedCount(d.registrations, eventId)
            && r.value.totalRegistrations == |r.value.registrations|
            && forall x :: x in r.value.registrations <==>
                 x in d.registrations && x.val.eventId == eventId
                 && (status.None? || status.value == ""
                     || RegistrationStatusName(x.val.status) == status.value))
  {
  }

  /** As written, the two agree on an existing event when the filter keeps
      the confirmed rows; a missing event fails whatever the filter. */
  lemma AsWrittenAgreesUnfiltered(d: Db, eventId: int, status: Option<string>)
    requires status.None? || status == Some("") || status == Some("confirmed")
    ensures EventRegistrationsAsWritten(d, eventId, status)
            == if HasId(d.events, eventId) then EventRegistrations(d, eventId, status) else ServerError
  {
    if HasId(d.events, eventId) {
      var p := ListedAt(eventId, status);
      var q := ConfirmedAt(eventId);
      ConfirmedListed(eventId, status);
      FilterStronger(d.registrations, p, q);
      ListingsAgree(d, eventId, status);
    }
  }

  /** For a missing event the route as written fails instead of answering
      404, for every status filter; the corrected listing answers NotFound. */
  lemma AsWrittenMissingEvent(d: Db, eventId: int, status: Option<string>)
    ensures EventRegistrationsAsWritten(d, eventId, status) == ServerError <==> !HasId(d.events, eventId)
    ensures !HasId(d.events, eventId) ==> EventRegistrations(d, eventId, status) == NotFound
  {
  }

  /** The two listings differ at most in the spots, and not when the listed
      rows hold every confirmed one. */
  lemma ListingsAgree(d: Db, eventId: int, status: Option<string>)
    requires HasId(d.events, eventId)
    requires Count(Filter(d.registrations, ListedAt(eventId, status)), ConfirmedAt(eventId))
             == ConfirmedCount(d.registrations, eventId)
    ensures EventRegistrationsAsWritten(d, eventId, status) == EventRegistrations(d, eventId, status)
  {
  }

  lemma ConfirmedListed(eventId: int, status: Option<string>)
    requires status.None? || status == Some("") || status == Some("confirmed")
    ensures forall x :: ConfirmedAt(eventId)(x) ==> ListedAt(eventId, status)(x)
  {
    forall x | ConfirmedAt(eventId)(x) ensures ListedAt(eventId, status)(x) {
      assert RegistrationStatusName(x.val.status) == "confirmed";
    }
  }

  /** Under status "cancelled" the route reports the full capacity, whatever
      the number of confirmed registrations. */
  lemma AsWrittenCancelledFilter(d: Db, eventId: int)
    requires HasId(d.events, eventId)
    ensures EventRegistrationsAsWritten(d, eventId, Some("cancelled")).value.availableSpots
            == Get(d.events, eventId).value.maxCapacity
  {
    var p := ListedAt(eventId, Some("cancelled"));
    var q := ConfirmedAt(eventId);
    assert RegistrationStatusName(RegistrationStatus.Confirmed) != "cancelled";
    assert forall x :: p(x) ==> !q(x);
    FilterNone(Filter(d.registrations, p), q);
  }

  /** An input that shows the discrepancy: one confirmed registration on an
      event of capacity 2, in an otherwise minimal database. */
  const OneBooking: Db := Db(
    [Row(1, College("C", None, None, 0))],
    [Row(1, Student("S", "s@x", 1, None, None, 0))],
    [Row(1, Event("Talk", None, Seminar, 10, None, None, None, 1, 2, EventStatus.Active, 0))],
    [Row(1, Registration(1, 1, 0, RegistrationStatus.Confirmed))], [], [])

  lemma OneBookingValid()
    ensures Invariants(OneBooking)
  {
    OneBookingKeys();
    OneBookingReferences();
  }

  lemma OneBookingKeys()
    ensures KeysUnique(OneBooking) && FieldsInRange(OneBooking)
    ensures CollegeNamesUnique(OneBooking.colleges) && EmailsUnique(OneBooking.students)
    ensures RegistrationPairsUnique(OneBooking.registrations)
  {
    var d := OneBooking;
    assert forall x :: x in d.colleges ==> x == d.colleges[0];
    assert forall x :: x in d.students ==> x == d.students[0];
    assert forall x :: x in d.events ==> x == d.events[0];
    assert forall x :: x in d.registrations ==> x == d.registrations[0];
  }

  lemma OneBookingReferences()
    ensures ReferencesResolve(OneBooking) && ChainHolds(OneBooking)
  {
    var d := OneBooking;
    assert forall x :: x in d.students ==> x == d.students[0];
    assert forall x :: x in d.events ==> x == d.events[0];
    assert forall x :: x in d.registrations ==> x == d.registrations[0];
    assert d.colleges[0].id == 1 && d.students[0].id == 1 && d.events[0].id == 1;
  }

  /** Listed with status=cancelled, the route reports 2 spots where 1 is
      left; both list no rows. */
  lemma AsWrittenMisreportsSpots()
    ensures Invariants(OneBooking)
    ensures EventRegistrationsAsWritten(OneBooking, 1, Some("cancelled")) == Ok(RegistrationListing([], 0, 2))
    ensures EventRegistrations(OneBooking, 1, Some("cancelled")) == Ok(RegistrationListing([], 0, 1))
  {
    OneBookingValid();
    OneBookingListing();
  }

  /** Asking for the registrations of event 2, which does not exist, fails as
      written where the corrected listing answers NotFound. */
  lemma AsWrittenCrashesOnMissingEvent()
    ensures Invariants(OneBooking)
    ensures EventRegistrationsAsWritten(OneBooking, 2, None) == ServerError
    ensures EventRegistrations(OneBooking, 2, None) == NotFound
  {
    OneBookingValid();
    assert !HasId(OneBooking.events, 2);
  }

  lemma OneBookingListing()
    ensures Get(OneBooking.events, 1) == Some(OneBooking.events[0].val)
    ensures Filter(OneBooking.registrations, ListedAt(1, Some("cancelled"))) == []
    ensures ConfirmedCount(OneBooking.registrations, 1) == 1
  {
    var d := OneBooking;
    var r := d.registrations[0];
    assert IndexOf(d.events, 1) == 0;
    assert [r][..0] == [];
    assert Filter([r], ConfirmedAt(1)) == [r];
    assert RegistrationStatusName(RegistrationStatus.Confirmed) != "cancelled";
    assert Filter([r], ListedAt(1, Some("cancelled"))) == [];
  }
}
