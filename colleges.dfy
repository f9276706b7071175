/** Creating, updating, deleting, fetching and searching colleges. */
module Colleges {
  import opened Tables
  import opened Models

  predicate NameTaken(t: Table<College>, name: string) {
    exists c :: c in t && c.val.name == name
  }

  predicate Enrols(t: Table<Student>, collegeId: int) {
    exists s :: s in t && s.val.collegeId == collegeId
  }

  predicate Hosts(t: Table<Event>, collegeId: int) {
    exists e :: e in t && e.val.collegeId == collegeId
  }

  /** create_college: refused when the name is taken. */
  function CreateCollege(d: Db, name: string, location: Option<string>, contactEmail: Option<string>,
                         now: int): (step: Step<Row<College>>)
    ensures !step.outcome.Ok? ==> step.db == d
    ensures step.outcome.Ok? ==> step.db == d.(colleges := d.colleges + [step.outcome.value])
  {
    if NameTaken(d.colleges, name) then Step(Conflict, d)
    else
      var cs := Insert(d.colleges, College(name, location, contactEmail, now));
      Step(Ok(cs[|d.colleges|]), d.(colleges := cs))
  }

  lemma CreateOutcomes(d: Db, name: string, location: Option<string>, contactEmail: Option<string>, now: int)
    ensures var s := CreateCollege(d, name, location, contactEmail, now);
      && (s.outcome == Conflict <==> exists c :: c in d.colleges && c.val.name == name)
      && (s.outcome.Ok? <==> !exists c :: c in d.colleges && c.val.name == name)
      && (!s.outcome.Ok? ==> s.db == d)
      && (s.outcome.Ok? ==>
            && s.db == d.(colleges := d.colleges + [s.outcome.value])
            && s.outcome.value.val == College(name, location, contactEmail, now)
            && !HasId(d.colleges, s.outcome.value.id))
  {
  }

  lemma CreatePreserves(d: Db, name: string, location: Option<string>, contactEmail: Option<string>, now: int)
    ensures Invariants(d) ==> Invariants(CreateCollege(d, name, location, contactEmail, now).db)
  {
    if Invariants(d) && CreateCollege(d, name, location, contactEmail, now).outcome.Ok? {
      var v := College(name, location, contactEmail, now);
      InsertKeepsNamesUnique(d.colleges, v);
      InsertKeepsIds(d.colleges, v);
    }
  }

  lemma InsertKeepsNamesUnique(t: Table<College>, v: College)
    requires CollegeNamesUnique(t) && !NameTaken(t, v.name)
    ensures CollegeNamesUnique(Insert(t, v))
  {
    var t' := Insert(t, v);
    var y := Row(FreshId(t), v);
    forall a, b | a in t' && b in t' && a.val.name == b.val.name
      ensures a.id == b.id
    {
      if (a == y) != (b == y) {
        assert false;
      }
    }
  }

  /** update_college: the body is a full CollegeCreate; a name conflict is
      looked for only when the name changes. The name is always written,
      location and contact email only when the request sets them. */
  function UpdateCollege(d: Db, collegeId: int, name: string, location: Option<Option<string>>,
                         contactEmail: Option<Option<string>>): (step: Step<Row<College>>)
    ensures !step.outcome.Ok? ==> step.db == d
    ensures step.outcome.Ok? ==>
      var k := IndexOf(d.colleges, collegeId);
      0 <= k && step.db == d.(colleges := UpdateAt(d.colleges, k, step.outcome.value.val))
  {
    var k := IndexOf(d.colleges, collegeId);
    if k < 0 then Step(NotFound, d)
    else
      var c := d.colleges[k].val;
      if name != c.name && NameTaken(d.colleges, name) then Step(Conflict, d)
      else
        var c' := c.(name := name, location := Pick(location, c.location),
                     contactEmail := Pick(contactEmail, c.contactEmail));
        var cs := UpdateAt(d.colleges, k, c');
        Step(Ok(cs[k]), d.(colleges := cs))
  }

  lemma UpdateEffect(d: Db, collegeId: int, name: string, location: Option<Option<string>>,
                     contactEmail: Option<Option<string>>)
    requires DistinctIds(d.colleges)
    ensures var s := UpdateCollege(d, collegeId, name, location, contactEmail);
      && (s.outcome == NotFound <==> !HasId(d.colleges, collegeId))
      && (HasId(d.colleges, collegeId) ==>
            var c := Get(d.colleges, collegeId).value;
            (s.outcome == Conflict <==>
               name != c.name && exists x :: x in d.colleges && x.val.name == name))
      && (!s.outcome.Ok? ==> s.db == d)
      && (s.outcome.Ok? ==>
            var c := Get(d.colleges, collegeId).value;
            var g := s.outcome.value;
            && g.id == collegeId && g.val.name == name
            && g.val.location == (if location.Some? then location.value else c.location)
            && g.val.contactEmail == (if contactEmail.Some? then contactEmail.value else c.contactEmail)
            && g.val.createdAt == c.createdAt
            && s.db == d.(colleges := s.db.colleges)
            && (forall x :: x in s.db.colleges <==> x == g || (x in d.colleges && x.id != collegeId)))
  {
  }

  /** Name uniqueness survives an update. */
  lemma UpdatePreserves(d: Db, collegeId: int, name: string, location: Option<Option<string>>,
                        contactEmail: Option<Option<string>>)
    ensures Invariants(d) ==> Invariants(UpdateCollege(d, collegeId, name, location, contactEmail).db)
  {
    if Invariants(d) {
      var s := UpdateCollege(d, collegeId, name, location, contactEmail);
      if s.outcome.Ok? {
        var t := d.colleges;
        var k := IndexOf(t, collegeId);
        var c := t[k].val;
        var v := c.(name := name, location := Pick(location, c.location),
                    contactEmail := Pick(contactEmail, c.contactEmail));
        ReviseNamesUnique(t, k, v);
        UpdateKeepsIds(t, k, v);
      }
    }
  }

  lemma ReviseNamesUnique(t: Table<College>, k: int, v: College)
    requires DistinctIds(t) && CollegeNamesUnique(t) && 0 <= k < |t|
    requires v.name == t[k].val.name || !NameTaken(t, v.name)
    ensures CollegeNamesUnique(UpdateAt(t, k, v))
  {
    var y := Row(t[k].id, v);
    var t' := UpdateAt(t, k, v);
    assert t[k] in t;
    assert forall o :: o in t' && o != y ==> o in t && o.id != t[k].id;
    assert forall o :: o in t && o.id != t[k].id ==> o.val.name != v.name;
  }

  /** delete_college: refused while a student or an event references it. */
  function DeleteCollege(d: Db, collegeId: int): (step: Step<()>)
    ensures !step.outcome.Ok? ==> step.db == d
    ensures step.outcome.Ok? ==>
      var k := IndexOf(d.colleges, collegeId);
      0 <= k && step.db == d.(colleges := RemoveAt(d.colleges, k))
  {
    var k := IndexOf(d.colleges, collegeId);
    if k < 0 then Step(NotFound, d)
    else if Enrols(d.students, collegeId) || Hosts(d.events, collegeId) then Step(Conflict, d)
    else Step(Ok(()), d.(colleges := RemoveAt(d.colleges, k)))
  }

  lemma DeleteEffect(d: Db, collegeId: int)
    requires DistinctIds(d.colleges)
    ensures var s := DeleteCollege(d, collegeId);
      && (s.outcome == NotFound <==> !HasId(d.colleges, collegeId))
      && (!s.outcome.Ok? ==> s.db == d)
      && (s.outcome.Ok? ==>
            && (forall x :: x in d.students ==> x.val.collegeId != collegeId)
            && (forall x :: x in d.events ==> x.val.collegeId != collegeId)
            && s.db == d.(colleges := s.db.colleges)
            && forall x :: x in s.db.colleges <==> x in d.colleges && x.id != collegeId)
  {
  }

  lemma DeletePreserves(d: Db, collegeId: int)
    ensures Invariants(d) ==> Invariants(DeleteCollege(d, collegeId).db)
  {
    if Invariants(d) {
      var s := DeleteCollege(d, collegeId);
      if s.outcome.Ok? {
        var k := IndexOf(d.colleges, collegeId);
        forall x | x in d.students ensures HasId(s.db.colleges, x.val.collegeId) {
          RemoveKeepsOthers(d.colleges, k, x.val.collegeId);
        }
        forall x | x in d.events ensures HasId(s.db.colleges, x.val.collegeId) {
          RemoveKeepsOthers(d.colleges, k, x.val.collegeId);
        }
      }
    }
  }

  /** get_college */
  function GetCollege(d: Db, collegeId: int): (r: Outcome<Row<College>>)
    ensures r.NotFound? <==> !HasId(d.colleges, collegeId)
    ensures r.Ok? ==> r.value in d.colleges && r.value.id == collegeId
  {
    var k := IndexOf(d.colleges, collegeId);
    if k < 0 then NotFound else Ok(d.colleges[k])
  }

  /** The college listing's search; an empty search is no filter. */
  function NameMatches(search: Option<string>): Row<College> -> bool {
    (c: Row<College>) => !Searching(search) || ContainsText(c.val.name, search.value)
  }

  function SearchColleges(d: Db, search: Option<string>): Table<College> {
    Filter(d.colleges, NameMatches(search))
  }

  /** Exactly the colleges whose name contains the search text are kept, in
      their scan order; without a search every college is. */
  lemma SearchMembers(d: Db, search: Option<string>)
    ensures forall c :: c in SearchColleges(d, search) <==>
      c in d.colleges && (search.None? || search.value == "" || ContainsText(c.val.name, search.value))
    ensures !Searching(search) ==> SearchColleges(d, search) == d.colleges
  {
    if !Searching(search) {
      FilterAll(d.colleges, NameMatches(search));
    }
  }
}
