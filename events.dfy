/** Creating, updating, deleting and cancelling events, their availability,
    and the filters of the event listing. */
module Events {
  import opened Tables
  import opened Models
  import Registrations

  /** The body of a create request; a capacity left out defaults. */
  datatype EventRequest = EventRequest(
    title: string,
    description: Option<string>,
    eventType: EventType,
    date: int,
    startTime: Option<int>,
    endTime: Option<int>,
    venue: Option<string>,
    collegeId: int,
    maxCapacity: Option<int>)

  function RequestedCapacity(q: EventRequest): int {
    Pick(q.maxCapacity, DefaultCapacity)
  }

  /** create_event: the capacity range is a field check made before the
      route runs; then college, date and time checks in that order. */
  function CreateEvent(d: Db, q: EventRequest, today: int, now: int): (step: Step<Row<Event>>)
    ensures !step.outcome.Ok? ==> step.db == d
    ensures step.outcome.Ok? ==> step.db == d.(events := d.events + [step.outcome.value])
  {
    if !ValidCapacity(RequestedCapacity(q)) then Step(Validation, d)
    else if !HasId(d.colleges, q.collegeId) then Step(NotFound, d)
    else if q.date < today then Step(BusinessRule, d)
    else if !TimesOrdered(q.startTime, q.endTime) then Step(BusinessRule, d)
    else
      var ev := Event(q.title, q.description, q.eventType, q.date, q.startTime, q.endTime, q.venue,
                      q.collegeId, RequestedCapacity(q), EventStatus.Active, now);
      var evs := Insert(d.events, ev);
      Step(Ok(evs[|d.events|]), d.(events := evs))
  }

  /** An event dated today is accepted; a new event is active, holds the
      requested capacity or 100, and is the only change. */
  lemma CreateOutcomes(d: Db, q: EventRequest, today: int, now: int)
    ensures var s := CreateEvent(d, q, today, now);
      && (s.outcome == Validation <==> q.maxCapacity.Some? && q.maxCapacity.value < 1)
      && (s.outcome == NotFound <==> ValidCapacity(RequestedCapacity(q)) && !HasId(d.colleges, q.collegeId))
      && (s.outcome == BusinessRule <==>
            ValidCapacity(RequestedCapacity(q)) && HasId(d.colleges, q.collegeId)
            && (q.date < today
                || (q.startTime.Some? && q.endTime.Some? && q.startTime.value >= q.endTime.value)))
      && (!s.outcome.Ok? ==> s.db == d)
      && (s.outcome.Ok? ==>
            var e := s.outcome.value;
            && s.db == d.(events := d.events + [e])
            && !HasId(d.events, e.id)
            && e.val.status == EventStatus.Active
            && e.val.maxCapacity == (if q.maxCapacity.None? then 100 else q.maxCapacity.value)
            && e.val.createdAt == now
            && e.val.title == q.title && e.val.date == q.date && e.val.collegeId == q.collegeId)
  {
  }

  /** In a consistent database a new event starts with no registrations. */
  lemma CreatedEventEmpty(d: Db, q: EventRequest, today: int, now: int)
    requires ReferencesResolve(d)
    ensures var s := CreateEvent(d, q, today, now);
      s.outcome.Ok? ==> Count(s.db.registrations, RegisteredAt(s.outcome.value.id)) == 0
  {
    var s := CreateEvent(d, q, today, now);
    if s.outcome.Ok? {
      var id := s.outcome.value.id;
      assert !HasId(d.events, id);
      FilterNone(d.registrations, RegisteredAt(id));
    }
  }

  lemma CreatePreserves(d: Db, q: EventRequest, today: int, now: int)
    ensures Invariants(d) ==> Invariants(CreateEvent(d, q, today, now).db)
  {
    if Invariants(d) && CreateEvent(d, q, today, now).outcome.Ok? {
      var s := CreateEvent(d, q, today, now);
      AddEventPreserves(d, s.outcome.value.val);
    }
  }

  /** An event of an existing college, with a capacity of at least one and
      ordered times, keeps every constraint. */
  lemma AddEventPreserves(d: Db, v: Event)
    requires Invariants(d) && HasId(d.colleges, v.collegeId)
    requires ValidCapacity(v.maxCapacity) && TimesOrdered(v.startTime, v.endTime)
    ensures Invariants(d.(events := Insert(d.events, v)))
  {
    var t' := Insert(d.events, v);
    InsertKeepsIds(d.events, v);
    assert forall x :: x in t' ==> x in d.events || x == Row(FreshId(d.events), v);
  }

  // ---------------------------------------------------------------------
  // update_event

  /** The fields an update request sets (`exclude_unset`): `None` is a
      field left out; for a nullable column `Some(None)` sets it to null. */
  datatype EventPatch = EventPatch(
    title: Option<string>,
    description: Option<Option<string>>,
    eventType: Option<EventType>,
    date: Option<int>,
    startTime: Option<Option<int>>,
    endTime: Option<Option<int>>,
    venue: Option<Option<string>>,
    maxCapacity: Option<int>,
    status: Option<EventStatus>)

  /** The record with every supplied field written over it. */
  function Patched(e: Event, p: EventPatch): Event {
    e.(title := Pick(p.title, e.title),
       description := Pick(p.description, e.description),
       eventType := Pick(p.eventType, e.eventType),
       date := Pick(p.date, e.date),
       startTime := Pick(p.startTime, e.startTime),
       endTime := Pick(p.endTime, e.endTime),
       venue := Pick(p.venue, e.venue),
       maxCapacity := Pick(p.maxCapacity, e.maxCapacity),
       status := Pick(p.status, e.status))
  }

  /** update_event: a supplied date before today is refused, and the time
      check uses each supplied time, else the stored one. The capacity is
      not compared with the registrations. */
  function UpdateEvent(d: Db, eventId: int, p: EventPatch, today: int): (step: Step<Row<Event>>)
    ensures !step.outcome.Ok? ==> step.db == d
    ensures step.outcome.Ok? ==>
      var k := IndexOf(d.events, eventId);
      0 <= k && step.db == d.(events := UpdateAt(d.events, k, step.outcome.value.val))
  {
    if p.maxCapacity.Some? && !ValidCapacity(p.maxCapacity.value) then Step(Validation, d)
    else
      var k := IndexOf(d.events, eventId);
      if k < 0 then Step(NotFound, d)
      else
        var e := d.events[k].val;
        if p.date.Some? && p.date.value < today then Step(BusinessRule, d)
        else if !TimesOrdered(Pick(p.startTime, e.startTime), Pick(p.endTime, e.endTime)) then
          Step(BusinessRule, d)
        else
          var evs := UpdateAt(d.events, k, Patched(e, p));
          Step(Ok(evs[k]), d.(events := evs))
  }

  /** The checks, and an update that changes only the supplied fields of that
      one event: its college, creation time and every other table are kept. */
  lemma UpdateEffect(d: Db, eventId: int, p: EventPatch, today: int)
    requires DistinctIds(d.events)
    ensures var s := UpdateEvent(d, eventId, p, today);
      && (s.outcome == Validation <==> p.maxCapacity.Some? && p.maxCapacity.value < 1)
      && (!s.outcome.Validation? ==> (s.outcome == NotFound <==> !HasId(d.events, eventId)))
      && (!s.outcome.Validation? && HasId(d.events, eventId) ==>
            var e := Get(d.events, eventId).value;
            var st := if p.startTime.Some? then p.startTime.value else e.startTime;
            var en := if p.endTime.Some? then p.endTime.value else e.endTime;
            (s.outcome == BusinessRule <==>
               (p.date.Some? && p.date.value < today)
               || (st.Some? && en.Some? && st.value >= en.value)))
      && (!s.outcome.Ok? ==> s.db == d)
      && (s.outcome.Ok? ==>
            var e := Get(d.events, eventId).value;
            var g := s.outcome.value.val;
            && s.outcome.value.id == eventId
            && (p.title.None? ==> g.title == e.title) && (p.title.Some? ==> g.title == p.title.value)
            && (p.maxCapacity.None? ==> g.maxCapacity == e.maxCapacity)
            && (p.maxCapacity.Some? ==> g.maxCapacity == p.maxCapacity.value)
            && (p.status.None? ==> g.status == e.status) && (p.status.Some? ==> g.status == p.status.value)
            && (p.date.None? ==> g.date == e.date) && (p.date.Some? ==> g.date == p.date.value)
            && g.eventType == (if p.eventType.Some? then p.eventType.value else e.eventType)
            && g.description == (if p.description.Some? then p.description.value else e.description)
            && g.startTime == (if p.startTime.Some? then p.startTime.value else e.startTime)
            && g.endTime == (if p.endTime.Some? then p.endTime.value else e.endTime)
            && g.venue == (if p.venue.Some? then p.venue.value else e.venue)
            && g.collegeId == e.collegeId && g.createdAt == e.createdAt
            && s.db == d.(events := s.db.events)
            && (forall x :: x in s.db.events <==> x == s.outcome.value || (x in d.events && x.id != eventId)))
  {
  }

  lemma UpdatePreserves(d: Db, eventId: int, p: EventPatch, today: int)
    ensures Invariants(d) ==> Invariants(UpdateEvent(d, eventId, p, today).db)
  {
    if Invariants(d) {
      var s := UpdateEvent(d, eventId, p, today);
      if s.outcome.Ok? {
        var k := IndexOf(d.events, eventId);
        ReviseEventPreserves(d, k, Patched(d.events[k].val, p));
      }
    }
  }

  /** Overwriting one event with a valid capacity and ordered times, under
      the same college, keeps every constraint. */
  lemma ReviseEventPreserves(d: Db, k: int, v: Event)
    requires Invariants(d) && 0 <= k < |d.events|
    requires v.collegeId == d.events[k].val.collegeId
    requires ValidCapacity(v.maxCapacity) && TimesOrdered(v.startTime, v.endTime)
    ensures Invariants(d.(events := UpdateAt(d.events, k, v)))
  {
    var t := d.events;
    var t' := UpdateAt(t, k, v);
    assert t[k] in t;
    assert forall e :: e in t' ==> e == Row(t[k].id, v) || e in t;
    UpdateKeepsIds(t, k, v);
  }

  // ---------------------------------------------------------------------
  // delete_event and cancel_event

  /** Refused while the event has a registration of either status. */
  function DeleteEvent(d: Db, eventId: int): (step: Step<()>)
    ensures !step.outcome.Ok? ==> step.db == d
    ensures step.outcome.Ok? ==>
      var k := IndexOf(d.events, eventId);
      0 <= k && step.db == d.(events := RemoveAt(d.events, k))
  {
    var k := IndexOf(d.events, eventId);
    if k < 0 then Step(NotFound, d)
    else if Count(d.registrations, RegisteredAt(eventId)) > 0 then Step(Conflict, d)
    else Step(Ok(()), d.(events := RemoveAt(d.events, k)))
  }

  lemma DeleteEffect(d: Db, eventId: int)
    requires DistinctIds(d.events)
    ensures var s := DeleteEvent(d, eventId);
      && (s.outcome == NotFound <==> !HasId(d.events, eventId))
      && (HasId(d.events, eventId) ==>
            (s.outcome == Conflict <==> exists r :: r in d.registrations && r.val.eventId == eventId))
      && (!s.outcome.Ok? ==> s.db == d)
      && (s.outcome.Ok? ==>
            && s.db == d.(events := s.db.events)
            && forall e :: e in s.db.events <==> e in d.events && e.id != eventId)
  {
    var regs := Filter(d.registrations, RegisteredAt(eventId));
    if exists r :: r in d.registrations && r.val.eventId == eventId {
      var r :| r in d.registrations && r.val.eventId == eventId;
      assert r in regs;
    }
    if |regs| > 0 {
      assert regs[0] in regs;
    }
  }

  lemma DeletePreserves(d: Db, eventId: int)
    ensures Invariants(d) ==> Invariants(DeleteEvent(d, eventId).db)
  {
    if Invariants(d) {
      var s := DeleteEvent(d, eventId);
      if s.outcome.Ok? {
        var k := IndexOf(d.events, eventId);
        forall r | r in d.registrations ensures HasId(s.db.events, r.val.eventId) {
          assert r !in Filter(d.registrations, RegisteredAt(eventId));
          RemoveKeepsOthers(d.events, k, r.val.eventId);
        }
      }
    }
  }

  /** cancel_event: only an active event can be cancelled; the status is the
      only thing that changes. */
  function CancelEvent(d: Db, eventId: int): (step: Step<()>)
    ensures !step.outcome.Ok? ==> step.db == d
    ensures step.outcome.Ok? ==>
      var k := IndexOf(d.events, eventId);
      && 0 <= k
      && step.db == d.(events := UpdateAt(d.events, k, d.events[k].val.(status := EventStatus.Cancelled)))
  {
    var k := IndexOf(d.events, eventId);
    if k < 0 then Step(NotFound, d)
    else if d.events[k].val.status != EventStatus.Active then Step(BusinessRule, d)
    else Step(Ok(()), d.(events := UpdateAt(d.events, k, d.events[k].val.(status := EventStatus.Cancelled))))
  }

  lemma CancelEffect(d: Db, eventId: int)
    ensures var s := CancelEvent(d, eventId);
      && (s.outcome == NotFound <==> !HasId(d.events, eventId))
      && (HasId(d.events, eventId) ==>
            (s.outcome == BusinessRule <==> Get(d.events, eventId).value.status != EventStatus.Active))
      && (!s.outcome.Ok? ==> s.db == d)
      && (s.outcome.Ok? ==>
            var k := IndexOf(d.events, eventId);
            && s.db == d.(events := d.events[k := Row(eventId,
                            d.events[k].val.(status := EventStatus.Cancelled))]))
  {
  }

  lemma CancelPreserves(d: Db, eventId: int)
    ensures Invariants(d) ==> Invariants(CancelEvent(d, eventId).db)
  {
    if Invariants(d) {
      var s := CancelEvent(d, eventId);
      if s.outcome.Ok? {
        var k := IndexOf(d.events, eventId);
        assert d.events[k] in d.events;
        ReviseEventPreserves(d, k, d.events[k].val.(status := EventStatus.Cancelled));
      }
    }
  }

  /** A second cancel is refused, and a cancelled event takes no registrations. */
  lemma CancelledEventClosed(d: Db, eventId: int, studentId: int, today: int, now: int)
    requires CancelEvent(d, eventId).outcome.Ok?
    ensures var d1 := CancelEvent(d, eventId).db;
      && CancelEvent(d1, eventId).outcome == BusinessRule
      && (HasId(d.students, studentId) ==>
            Registrations.Register(d1, studentId, eventId, today, now).outcome == BusinessRule)
  {
    var k := IndexOf(d.events, eventId);
    var d1 := CancelEvent(d, eventId).db;
    assert IndexOf(d1.events, eventId) == k;
  }

  // ---------------------------------------------------------------------
  // check_event_availability

  datatype Availability = Availability(
    maxCapacity: int,
    currentRegistrations: nat,
    availableSpots: int,
    isAvailable: bool,
    status: EventStatus)

  function EventAvailability(d: Db, eventId: int): Outcome<Availability> {
    match Get(d.events, eventId)
    case None => NotFound
    case Some(e) =>
      var current := ConfirmedCount(d.registrations, eventId);
      var spots := e.maxCapacity - current;
      Ok(Availability(e.maxCapacity, current, spots, spots > 0 && e.status == EventStatus.Active, e.status))
  }

  /** The report agrees with registration: an event reported available, not
      in the past, takes a new student's registration, and a registration
      succeeds only on an event reported available. */
  lemma AvailabilityMatchesRegister(d: Db, eventId: int, studentId: int, today: int, now: int)
    requires HasId(d.students, studentId) && HasId(d.events, eventId)
    requires !HasRegistration(d.registrations, studentId, eventId)
    ensures var a := EventAvailability(d, eventId).value;
      var e := Get(d.events, eventId).value;
      && a.availableSpots == e.maxCapacity - ConfirmedCount(d.registrations, eventId)
      && (a.isAvailable <==> a.availableSpots > 0 && e.status == EventStatus.Active)
      && (Registrations.Register(d, studentId, eventId, today, now).outcome.Ok?
          <==> a.isAvailable && e.date >= today)
  {
  }

  // ---------------------------------------------------------------------
  // get_events filters

  /** The optional query parameters of the listing. */
  datatype EventQuery = EventQuery(
    collegeId: Option<int>,
    eventType: Option<EventType>,
    status: Option<EventStatus>,
    startDate: Option<int>,
    endDate: Option<int>,
    search: Option<string>)

  function EventListed(q: EventQuery): Row<Event> -> bool {
    (e: Row<Event>) =>
      && IdFilter(q.collegeId, e.val.collegeId)
      && (q.eventType.None? || e.val.eventType == q.eventType.value)
      && (q.status.None? || e.val.status == q.status.value)
      && (q.startDate.None? || e.val.date >= q.startDate.value)
      && (q.endDate.None? || e.val.date <= q.endDate.value)
      && (!Searching(q.search)
          || ContainsText(e.val.title, q.search.value) || ContainsOpt(e.val.description, q.search.value))
  }

  function ListEvents(d: Db, q: EventQuery): Table<Event> {
    Filter(d.events, EventListed(q))
  }

  /** The filters combine with AND, the date range is inclusive, and a search
      matches the title or the description. */
  lemma ListEventsMembers(d: Db, q: EventQuery, e: Row<Event>)
    ensures e in ListEvents(d, q) <==>
      && e in d.events
      && (q.collegeId.None? || q.collegeId.value == 0 || e.val.collegeId == q.collegeId.value)
      && (q.eventType.Some? ==> e.val.eventType == q.eventType.value)
      && (q.status.Some? ==> e.val.status == q.status.value)
      && (q.startDate.Some? && q.endDate.Some? ==> q.startDate.value <= e.val.date <= q.endDate.value)
      && (q.startDate.Some? ==> q.startDate.value <= e.val.date)
      && (q.endDate.Some? ==> e.val.date <= q.endDate.value)
      && (q.search.Some? && q.search.value != "" ==>
            ContainsText(e.val.title, q.search.value)
            || (e.val.description.Some? && ContainsText(e.val.description.value, q.search.value)))
  {
  }

  /** The search text is matched as a substring, whatever the case of its
      ASCII letters: text surrounding it does not hide it, and lower-casing
      the search does not change what it matches. */
  lemma SearchFindsText(pre: string, t: string, post: string)
    ensures ContainsText(pre + t + post, t)
    ensures forall text :: ContainsText(text, Lower(t)) <==> ContainsText(text, t)
  {
    var s := pre + t + post;
    assert Lower(s)[|pre|..|pre| + |t|] == Lower(t);
    assert OccursAt(Lower(s), Lower(t), |pre|);
    assert Lower(Lower(t)) == Lower(t);
  }
}
