/** The six record kinds of the campus-event database, the enumerations and
    field ranges of the request schemas, the database snapshot `Db`, and the
    constraints every reachable snapshot satisfies. */
module Models {
  import opened Tables

  // ---------------------------------------------------------------------
  // Enumerations (schemas.py)

  datatype EventStatus = Active | Cancelled | Completed

  datatype EventType = Workshop | Seminar | Competition | Conference | Hackathon | Cultural

  datatype RegistrationStatus = Confirmed | Cancelled

  /** The strings the columns hold; filters given as free text compare against these. */
  function EventTypeName(t: EventType): string {
    match t
    case Workshop => "workshop"
    case Seminar => "seminar"
    case Competition => "competition"
    case Conference => "conference"
    case Hackathon => "hackathon"
    case Cultural => "cultural"
  }

  function RegistrationStatusName(s: RegistrationStatus): string {
    match s
    case Confirmed => "confirmed"
    case Cancelled => "cancelled"
  }

  const AllEventTypes: seq<EventType> :=
    [Workshop, Seminar, Competition, Conference, Hackathon, Cultural]

  // ---------------------------------------------------------------------
  // Field ranges (schemas.py, models.py)

  predicate ValidRating(rating: int) { 1 <= rating <= 5 }

  predicate ValidYear(year: Option<int>) { year.None? || 1 <= year.value <= 4 }

  predicate ValidCapacity(capacity: int) { 1 <= capacity }

  /** Both times present means start strictly before end. */
  predicate TimesOrdered(startTime: Option<int>, endTime: Option<int>) {
    startTime.None? || endTime.None? || startTime.value < endTime.value
  }

  /** Capacity of an event created without one. */
  const DefaultCapacity: int := 100

  // ---------------------------------------------------------------------
  // Records (models.py). Dates are day numbers, times of day are seconds
  // after midnight, timestamps are seconds; a nullable column is an Option.

  datatype College = College(
    name: string,
    location: Option<string>,
    contactEmail: Option<string>,
    createdAt: int)

  datatype Student = Student(
    name: string,
    email: string,
    collegeId: int,
    phone: Option<string>,
    yearOfStudy: Option<int>,
    createdAt: int)

  datatype Event = Event(
    title: string,
    description: Option<string>,
    eventType: EventType,
    date: int,
    startTime: Option<int>,
    endTime: Option<int>,
    venue: Option<string>,
    collegeId: int,
    maxCapacity: int,
    status: EventStatus,
    createdAt: int)

  datatype Registration = Registration(
    studentId: int,
    eventId: int,
    registeredAt: int,
    status: RegistrationStatus)

  datatype Attendance = Attendance(studentId: int, eventId: int, attendedAt: int)

  datatype Feedback = Feedback(
    studentId: int,
    eventId: int,
    rating: int,
    comments: Option<string>,
    submittedAt: int)

  /** One consistent view of every table. */
  datatype Db = Db(
    colleges: Table<College>,
    students: Table<Student>,
    events: Table<Event>,
    registrations: Table<Registration>,
    attendances: Table<Attendance>,
    feedback: Table<Feedback>)

  /** What a workflow operation reports, in place of the HTTP error it raises;
      ServerError stands for an exception the route does not catch. */
  datatype Outcome<T> = Ok(value: T) | NotFound | Conflict | BusinessRule | Validation | ServerError

  /** A workflow operation's outcome together with the database after it. */
  datatype Step<T> = Step(outcome: Outcome<T>, db: Db)

  /** Python truthiness of an optional id filter: a zero id switches the filter off. */
  predicate IdFilter(filter: Option<int>, id: int) {
    filter.None? || filter.value == 0 || filter.value == id
  }

  /** `part / whole * 100`, or 0 when whole is 0 (every rate of the system). */
  function Percentage(part: nat, whole: nat): (r: real)
    ensures whole == 0 ==> r == 0.0
    ensures whole > 0 ==> r * (whole as real) == (part as real) * 100.0
    ensures 0.0 <= r
    ensures part <= whole ==> r <= 100.0
  {
    if whole > 0 then (part as real) / (whole as real) * 100.0 else 0.0
  }

  // ---------------------------------------------------------------------
  // Text search: a `.contains(s)` filter, a LIKE '%s%' that SQLite matches
  // without regard to the case of ASCII letters

  function LowerChar(c: char): char {
    if 'A' <= c <= 'Z' then (c as int + 32) as char else c
  }

  function Lower(s: string): (r: string)
    ensures |r| == |s| && forall i :: 0 <= i < |s| ==> r[i] == LowerChar(s[i])
  {
    seq(|s|, i requires 0 <= i < |s| => LowerChar(s[i]))
  }

  predicate OccursAt(text: string, pattern: string, i: int) {
    0 <= i && i + |pattern| <= |text| && text[i..i + |pattern|] == pattern
  }

  predicate ContainsText(text: string, pattern: string) {
    exists i :: 0 <= i <= |text| && OccursAt(Lower(text), Lower(pattern), i)
  }

  /** A nullable column never matches. */
  predicate ContainsOpt(text: Option<string>, pattern: string) {
    text.Some? && ContainsText(text.value, pattern)
  }

  /** A search string given and non-empty (truthy) narrows the query. */
  predicate Searching(search: Option<string>) {
    search.Some? && search.value != ""
  }

  // ---------------------------------------------------------------------
  // Queries shared by several routes

  predicate HasRegistration(t: Table<Registration>, studentId: int, eventId: int) {
    exists r :: r in t && r.val.studentId == studentId && r.val.eventId == eventId
  }

  predicate HasConfirmedRegistration(t: Table<Registration>, studentId: int, eventId: int) {
    exists r :: r in t && r.val.studentId == studentId && r.val.eventId == eventId
                && r.val.status == RegistrationStatus.Confirmed
  }

  predicate HasAttendance(t: Table<Attendance>, studentId: int, eventId: int) {
    exists a :: a in t && a.val.studentId == studentId && a.val.eventId == eventId
  }

  predicate HasFeedback(t: Table<Feedback>, studentId: int, eventId: int) {
    exists f :: f in t && f.val.studentId == studentId && f.val.eventId == eventId
  }

  function ConfirmedAt(eventId: int): Row<Registration> -> bool {
    (r: Row<Registration>) => r.val.eventId == eventId && r.val.status == RegistrationStatus.Confirmed
  }

  function CancelledAt(eventId: int): Row<Registration> -> bool {
    (r: Row<Registration>) => r.val.eventId == eventId && r.val.status == RegistrationStatus.Cancelled
  }

  function RegisteredAt(eventId: int): Row<Registration> -> bool {
    (r: Row<Registration>) => r.val.eventId == eventId
  }

  function RegisteredBy(studentId: int): Row<Registration> -> bool {
    (r: Row<Registration>) => r.val.studentId == studentId
  }

  function AttendedAt(eventId: int): Row<Attendance> -> bool {
    (a: Row<Attendance>) => a.val.eventId == eventId
  }

  function AttendedBy(studentId: int): Row<Attendance> -> bool {
    (a: Row<Attendance>) => a.val.studentId == studentId
  }

  function FeedbackAt(eventId: int): Row<Feedback> -> bool {
    (f: Row<Feedback>) => f.val.eventId == eventId
  }

  /** Number of confirmed registrations of an event: the count held against its capacity. */
  function ConfirmedCount(t: Table<Registration>, eventId: int): nat {
    Count(t, ConfirmedAt(eventId))
  }

  // ---------------------------------------------------------------------
  // Constraints of every reachable snapshot

  ghost predicate KeysUnique(d: Db) {
    && DistinctIds(d.colleges) && DistinctIds(d.students) && DistinctIds(d.events)
    && DistinctIds(d.registrations) && DistinctIds(d.attendances) && DistinctIds(d.feedback)
  }

  /** `colleges.name` is a unique column. */
  ghost predicate CollegeNamesUnique(t: Table<College>) {
    forall a, b :: a in t && b in t && a.val.name == b.val.name ==> a.id == b.id
  }

  /** `students.email` is a unique column. */
  ghost predicate EmailsUnique(t: Table<Student>) {
    forall a, b :: a in t && b in t && a.val.email == b.val.email ==> a.id == b.id
  }

  /** The unique (student, event) constraint of the registrations table. */
  ghost predicate RegistrationPairsUnique(t: Table<Registration>) {
    forall a, b ::
      a in t && b in t && a.val.studentId == b.val.studentId && a.val.eventId == b.val.eventId
      ==> a.id == b.id
  }

  ghost predicate AttendancePairsUnique(t: Table<Attendance>) {
    forall a, b ::
      a in t && b in t && a.val.studentId == b.val.studentId && a.val.eventId == b.val.eventId
      ==> a.id == b.id
  }

  ghost predicate FeedbackPairsUnique(t: Table<Feedback>) {
    forall a, b ::
      a in t && b in t && a.val.studentId == b.val.studentId && a.val.eventId == b.val.eventId
      ==> a.id == b.id
  }

  /** Foreign keys of students and events to colleges, and of registrations to
      students and events. */
  ghost predicate ReferencesResolve(d: Db) {
    && (forall s :: s in d.students ==> HasId(d.colleges, s.val.collegeId))
    && (forall e :: e in d.events ==> HasId(d.colleges, e.val.collegeId))
    && (forall r :: r in d.registrations ==>
          HasId(d.students, r.val.studentId) && HasId(d.events, r.val.eventId))
  }

  /** Every attendance and every feedback has a registration (of either
      status) for the same student and event. */
  ghost predicate ChainHolds(d: Db) {
    && (forall a :: a in d.attendances ==>
          HasRegistration(d.registrations, a.val.studentId, a.val.eventId))
    && (forall f :: f in d.feedback ==>
          HasRegistration(d.registrations, f.val.studentId, f.val.eventId))
  }

  /** Check constraint on ratings and the schema ranges of stored fields. */
  ghost predicate FieldsInRange(d: Db) {
    && (forall f :: f in d.feedback ==> ValidRating(f.val.rating))
    && (forall e :: e in d.events ==> ValidCapacity(e.val.maxCapacity))
    && (forall e :: e in d.events ==> TimesOrdered(e.val.startTime, e.val.endTime))
    && (forall s :: s in d.students ==> ValidYear(s.val.yearOfStudy))
  }

  ghost predicate Invariants(d: Db) {
    && KeysUnique(d)
    && CollegeNamesUnique(d.colleges)
    && EmailsUnique(d.students)
    && RegistrationPairsUnique(d.registrations)
    && AttendancePairsUnique(d.attendances)
    && FeedbackPairsUnique(d.feedback)
    && ReferencesResolve(d)
    && ChainHolds(d)
    && FieldsInRange(d)
  }

  const EmptyDb: Db := Db([], [], [], [], [], [])

  lemma EmptyDbValid()
    ensures Invariants(EmptyDb)
  {
  }
}
