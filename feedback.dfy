/** Submitting, updating and deleting feedback, the rating filters of the
    feedback listing, and the per-event and overall feedback statistics. */
module Feedbacks {
  import opened Tables
  import opened Models

  /** submit_feedback: the rating range is a field check of the request
      body, made before the route runs; then the route's checks in order. */
  function SubmitFeedback(d: Db, studentId: int, eventId: int, rating: int, comments: Option<string>,
                          now: int): (step: Step<Row<Feedback>>)
    ensures !step.outcome.Ok? ==> step.db == d
    ensures step.outcome.Ok? ==> step.db == d.(feedback := d.feedback + [step.outcome.value])
  {
    if !ValidRating(rating) then Step(Validation, d)
    else if !HasId(d.students, studentId) then Step(NotFound, d)
    else if !HasId(d.events, eventId) then Step(NotFound, d)
    else if !HasAttendance(d.attendances, studentId, eventId) then Step(BusinessRule, d)
    else if HasFeedback(d.feedback, studentId, eventId) then Step(Conflict, d)
    else
      var fb := Insert(d.feedback, Feedback(studentId, eventId, rating, comments, now));
      Step(Ok(fb[|d.feedback|]), d.(feedback := fb))
  }

  lemma SubmitOutcomes(d: Db, studentId: int, eventId: int, rating: int, comments: Option<string>, now: int)
    ensures var s := SubmitFeedback(d, studentId, eventId, rating, comments, now);
      && (s.outcome == Validation <==> !ValidRating(rating))
      && (ValidRating(rating) && !HasId(d.students, studentId) ==> s.outcome == NotFound)
      && (ValidRating(rating) && HasId(d.students, studentId) && !HasId(d.events, eventId) ==>
            s.outcome == NotFound)
      && (ValidRating(rating) && HasId(d.students, studentId) && HasId(d.events, eventId) ==>
            && (s.outcome == BusinessRule <==> !HasAttendance(d.attendances, studentId, eventId))
            && (s.outcome == Conflict <==>
                  HasAttendance(d.attendances, studentId, eventId)
                  && HasFeedback(d.feedback, studentId, eventId)))
      && (s.outcome.Ok? <==>
            ValidRating(rating) && HasId(d.students, studentId) && HasId(d.events, eventId)
            && HasAttendance(d.attendances, studentId, eventId)
            && !HasFeedback(d.feedback, studentId, eventId))
      && (s.outcome.Ok? || s.db == d)
  {
  }

  /** A successful submit adds exactly one feedback record for the pair, the
      only one the pair then has. */
  lemma SubmitAddsOne(d: Db, studentId: int, eventId: int, rating: int, comments: Option<string>, now: int)
    ensures var s := SubmitFeedback(d, studentId, eventId, rating, comments, now);
      s.outcome.Ok? ==>
        && s.db == d.(feedback := d.feedback + [s.outcome.value])
        && s.outcome.value.val == Feedback(studentId, eventId, rating, comments, now)
        && (forall f :: f in s.db.feedback && f.val.studentId == studentId && f.val.eventId == eventId
                        ==> f == s.outcome.value)
  {
  }

  lemma SubmitPreserves(d: Db, studentId: int, eventId: int, rating: int, comments: Option<string>, now: int)
    ensures Invariants(d) ==> Invariants(SubmitFeedback(d, studentId, eventId, rating, comments, now).db)
  {
    if Invariants(d) && SubmitFeedback(d, studentId, eventId, rating, comments, now).outcome.Ok? {
      var a :| a in d.attendances && a.val.studentId == studentId && a.val.eventId == eventId;
      AddFeedbackPreserves(d, Feedback(studentId, eventId, rating, comments, now));
    }
  }

  /** Adding a valid rating for a registered pair without feedback keeps every constraint. */
  lemma AddFeedbackPreserves(d: Db, v: Feedback)
    requires Invariants(d)
    requires ValidRating(v.rating)
    requires HasRegistration(d.registrations, v.studentId, v.eventId)
    requires !HasFeedback(d.feedback, v.studentId, v.eventId)
    ensures Invariants(d.(feedback := Insert(d.feedback, v)))
  {
    var t' := Insert(d.feedback, v);
    InsertKeepsFeedbackPairs(d.feedback, v);
    assert forall f :: f in t' ==> f in d.feedback || f == Row(FreshId(d.feedback), v);
  }

  lemma InsertKeepsFeedbackPairs(t: Table<Feedback>, v: Feedback)
    requires FeedbackPairsUnique(t) && !HasFeedback(t, v.studentId, v.eventId)
    ensures FeedbackPairsUnique(Insert(t, v))
  {
    var t' := Insert(t, v);
    var y := Row(FreshId(t), v);
    forall a, b | a in t' && b in t' && a.val.studentId == b.val.studentId
                  && a.val.eventId == b.val.eventId
      ensures a.id == b.id
    {
      if (a == y) != (b == y) {
        assert false;
      }
    }
  }

  /** update_feedback: the body is a full FeedbackCreate, so its rating is
      range-checked first; its student and event ids are ignored. The rating
      is always overwritten; the comments only when the request sets them
      (`Some(c)`, where c may be null). */
  function UpdateFeedback(d: Db, feedbackId: int, studentId: int, eventId: int, rating: int,
                          comments: Option<Option<string>>): (step: Step<Row<Feedback>>)
    ensures !step.outcome.Ok? ==> step.db == d
    ensures step.outcome.Ok? ==>
      var k := IndexOf(d.feedback, feedbackId);
      0 <= k && step.db == d.(feedback := UpdateAt(d.feedback, k, step.outcome.value.val))
  {
    if !ValidRating(rating) then Step(Validation, d)
    else
      var k := IndexOf(d.feedback, feedbackId);
      if k < 0 then Step(NotFound, d)
      else
        var f := d.feedback[k].val;
        var f' := f.(rating := rating,
                     comments := if comments.Some? then comments.value else f.comments);
        var fb := UpdateAt(d.feedback, k, f');
        Step(Ok(fb[k]), d.(feedback := fb))
  }

  /** Update keeps the record's student and event whatever the request
      carries, and changes only the supplied fields of that one record. */
  lemma UpdateEffect(d: Db, feedbackId: int, studentId: int, eventId: int, rating: int,
                     comments: Option<Option<string>>)
    requires DistinctIds(d.feedback)
    ensures var s := UpdateFeedback(d, feedbackId, studentId, eventId, rating, comments);
      && (s.outcome == Validation <==> !ValidRating(rating))
      && (ValidRating(rating) ==> (s.outcome == NotFound <==> !HasId(d.feedback, feedbackId)))
      && (!s.outcome.Ok? ==> s.db == d)
      && (s.outcome.Ok? ==>
            var f := Get(d.feedback, feedbackId).value;
            var g := s.outcome.value;
            && g.id == feedbackId
            && g.val.studentId == f.studentId && g.val.eventId == f.eventId
            && g.val.submittedAt == f.submittedAt
            && g.val.rating == rating
            && g.val.comments == (if comments.Some? then comments.value else f.comments)
            && s.db == d.(feedback := s.db.feedback)
            && (forall x :: x in s.db.feedback <==> x == g || (x in d.feedback && x.id != feedbackId)))
  {
  }

  lemma UpdatePreserves(d: Db, feedbackId: int, studentId: int, eventId: int, rating: int,
                        comments: Option<Option<string>>)
    ensures Invariants(d) ==> Invariants(UpdateFeedback(d, feedbackId, studentId, eventId, rating, comments).db)
  {
    if Invariants(d) {
      var s := UpdateFeedback(d, feedbackId, studentId, eventId, rating, comments);
      if s.outcome.Ok? {
        var k := IndexOf(d.feedback, feedbackId);
        var f := d.feedback[k].val;
        ReviseFeedbackPreserves(d, k, f.(rating := rating,
                                         comments := if comments.Some? then comments.value else f.comments));
      }
    }
  }

  /** Overwriting one record with a valid rating for the same pair keeps every constraint. */
  lemma ReviseFeedbackPreserves(d: Db, k: int, v: Feedback)
    requires Invariants(d) && 0 <= k < |d.feedback|
    requires v.studentId == d.feedback[k].val.studentId && v.eventId == d.feedback[k].val.eventId
    requires ValidRating(v.rating)
    ensures Invariants(d.(feedback := UpdateAt(d.feedback, k, v)))
  {
    var t' := UpdateAt(d.feedback, k, v);
    ReviseKeepsFeedbackPairs(d.feedback, k, v);
    assert d.feedback[k] in d.feedback;
    assert forall f :: f in t' ==> f in d.feedback || f == Row(d.feedback[k].id, v);
  }

  /** Rewriting a feedback row without moving it to another pair keeps pairs unique. */
  lemma ReviseKeepsFeedbackPairs(t: Table<Feedback>, k: int, v: Feedback)
    requires DistinctIds(t) && FeedbackPairsUnique(t) && 0 <= k < |t|
    requires v.studentId == t[k].val.studentId && v.eventId == t[k].val.eventId
    ensures FeedbackPairsUnique(UpdateAt(t, k, v))
  {
    var y := Row(t[k].id, v);
    var t' := UpdateAt(t, k, v);
    assert t[k] in t;
    forall a, b | a in t' && b in t' && a.val.studentId == b.val.studentId
                  && a.val.eventId == b.val.eventId
      ensures a.id == b.id
    {
      var a0 := if a == y then t[k] else a;
      var b0 := if b == y then t[k] else b;
      assert a0 in t && b0 in t && a0.id == a.id && b0.id == b.id;
    }
  }

  /** delete_feedback: no dependency is checked. */
  function DeleteFeedback(d: Db, feedbackId: int): (step: Step<()>)
    ensures !step.outcome.Ok? ==> step.db == d
    ensures step.outcome.Ok? ==>
      var k := IndexOf(d.feedback, feedbackId);
      0 <= k && step.db == d.(feedback := RemoveAt(d.feedback, k))
  {
    var k := IndexOf(d.feedback, feedbackId);
    if k < 0 then Step(NotFound, d)
    else Step(Ok(()), d.(feedback := RemoveAt(d.feedback, k)))
  }

  lemma DeleteFeedbackEffect(d: Db, feedbackId: int)
    requires DistinctIds(d.feedback)
    ensures var s := DeleteFeedback(d, feedbackId);
      && (s.outcome == NotFound <==> !HasId(d.feedback, feedbackId))
      && (s.outcome.Ok? <==> HasId(d.feedback, feedbackId))
      && (!s.outcome.Ok? ==> s.db == d)
      && (s.outcome.Ok? ==>
            && s.db == d.(feedback := s.db.feedback)
            && forall f :: f in s.db.feedback <==> f in d.feedback && f.id != feedbackId)
  {
  }

  lemma DeleteFeedbackPreserves(d: Db, feedbackId: int)
    ensures Invariants(d) ==> Invariants(DeleteFeedback(d, feedbackId).db)
  {
  }

  // ---------------------------------------------------------------------
  // The feedback listing's filters (get_feedback)

  /** Each filter applies only when given and truthy; a zero bound is no bound. */
  function FeedbackListed(studentId: Option<int>, eventId: Option<int>,
                          minRating: Option<int>, maxRating: Option<int>): Row<Feedback> -> bool {
    (f: Row<Feedback>) =>
      && IdFilter(studentId, f.val.studentId)
      && IdFilter(eventId, f.val.eventId)
      && (minRating.None? || minRating.value == 0 || f.val.rating >= minRating.value)
      && (maxRating.None? || maxRating.value == 0 || f.val.rating <= maxRating.value)
  }

  function FeedbackListing(d: Db, studentId: Option<int>, eventId: Option<int>,
                           minRating: Option<int>, maxRating: Option<int>): Table<Feedback> {
    Filter(d.feedback, FeedbackListed(studentId, eventId, minRating, maxRating))
  }

  /** With both bounds given and non-zero, the listing holds exactly the
      records whose rating lies in the inclusive range and that pass the id
      filters. */
  lemma FeedbackListingRange(d: Db, studentId: Option<int>, eventId: Option<int>, lo: int, hi: int)
    requires lo != 0 && hi != 0
    ensures forall f :: f in FeedbackListing(d, studentId, eventId, Some(lo), Some(hi)) <==>
      && f in d.feedback
      && lo <= f.val.rating <= hi
      && (studentId.None? || studentId.value == 0 || f.val.studentId == studentId.value)
      && (eventId.None? || eventId.value == 0 || f.val.eventId == eventId.value)
  {
  }

  /** A zero max_rating is falsy and drops the bound: every record is listed. */
  lemma FeedbackListingZeroMax(d: Db)
    ensures FeedbackListing(d, None, None, None, Some(0)) == d.feedback
  {
    FilterAll(d.feedback, FeedbackListed(None, None, None, Some(0)));
  }

  // ---------------------------------------------------------------------
  // Statistics over ratings

  /** `[f.rating for f in feedback_list]` */
  function Ratings(t: Table<Feedback>): (rs: seq<int>)
    ensures |rs| == |t|
    ensures forall i :: 0 <= i < |t| ==> rs[i] == t[i].val.rating
  {
    if |t| == 0 then [] else Ratings(t[..|t| - 1]) + [t[|t| - 1].val.rating]
  }

  function Sum(rs: seq<int>): int {
    if |rs| == 0 then 0 else Sum(rs[..|rs| - 1]) + rs[|rs| - 1]
  }

  function EqualTo(i: int): int -> bool {
    (r: int) => r == i
  }

  /** `ratings.count(i)` */
  function Occurrences(rs: seq<int>, i: int): nat {
    Count(rs, EqualTo(i))
  }

  /** The arithmetic mean, 0 for no ratings. */
  function Mean(rs: seq<int>): (m: real)
    ensures |rs| == 0 ==> m == 0.0
    ensures |rs| > 0 ==> m * (|rs| as real) == Sum(rs) as real
  {
    if |rs| == 0 then 0.0 else (Sum(rs) as real) / (|rs| as real)
  }

  const RatingKeys: set<int> := {1, 2, 3, 4, 5}

  /** `{str(i): ratings.count(i) for i in range(1, 6)}` */
  function Buckets(rs: seq<int>): map<int, nat> {
    map i | i in RatingKeys :: Occurrences(rs, i)
  }

  /** Ratings within 1..5 fill the five buckets exactly. */
  lemma {:induction false} BucketsPartition(rs: seq<int>)
    requires forall r :: r in rs ==> ValidRating(r)
    ensures Occurrences(rs, 1) + Occurrences(rs, 2) + Occurrences(rs, 3)
            + Occurrences(rs, 4) + Occurrences(rs, 5) == |rs|
    decreases |rs|
  {
    if |rs| > 0 {
      var rs' := rs[..|rs| - 1];
      var x := rs[|rs| - 1];
      assert forall r :: r in rs' ==> r in rs;
      BucketsPartition(rs');
      OccurrencesLast(rs, 1);
      OccurrencesLast(rs, 2);
      OccurrencesLast(rs, 3);
      OccurrencesLast(rs, 4);
      OccurrencesLast(rs, 5);
      assert x in rs;
    }
  }

  lemma OccurrencesLast(rs: seq<int>, i: int)
    requires |rs| > 0
    ensures Occurrences(rs, i) == Occurrences(rs[..|rs| - 1], i) + (if rs[|rs| - 1] == i then 1 else 0)
  {
  }

  /** The mean of ratings within 1..5 lies within 1..5. */
  lemma {:induction false} SumBounds(rs: seq<int>)
    requires forall r :: r in rs ==> ValidRating(r)
    ensures |rs| <= Sum(rs) <= 5 * |rs|
    decreases |rs|
  {
    if |rs| > 0 {
      var rs' := rs[..|rs| - 1];
      assert forall r :: r in rs' ==> r in rs;
      SumBounds(rs');
      assert rs[|rs| - 1] in rs;
    }
  }

  lemma MeanBounds(rs: seq<int>)
    requires |rs| > 0 && forall r :: r in rs ==> ValidRating(r)
    ensures 1.0 <= Mean(rs) <= 5.0
  {
    SumBounds(rs);
    var n := |rs| as real;
    assert n <= Sum(rs) as real <= 5.0 * n;
    assert Mean(rs) * n == Sum(rs) as real;
  }

  // ---------------------------------------------------------------------
  // The feedback summary of one event (get_event_feedback_summary)

  datatype FeedbackSummary = FeedbackSummary(
    totalFeedback: nat,
    averageRating: real,
    ratingDistribution: map<int, nat>,
    feedback: Table<Feedback>)

  function EventFeedbackSummary(d: Db, eventId: int): Outcome<FeedbackSummary> {
    if !HasId(d.events, eventId) then NotFound
    else
      var fl := Filter(d.feedback, FeedbackAt(eventId));
      if |fl| == 0 then Ok(FeedbackSummary(0, 0.0, map[], []))
      else
        var rs := Ratings(fl);
        Ok(FeedbackSummary(|fl|, Mean(rs), Buckets(rs), fl))
  }

  /** No feedback for an existing event: total 0, average 0 and no buckets at all. */
  lemma EventSummaryEmpty(d: Db, eventId: int)
    ensures var r := EventFeedbackSummary(d, eventId);
      && (r.NotFound? <==> !HasId(d.events, eventId))
      && (r.Ok? && Count(d.feedback, FeedbackAt(eventId)) == 0 ==>
            r.value == FeedbackSummary(0, 0.0, map[], []))
  {
  }

  /** With feedback, the average is the mean of the event's ratings, in 1..5;
      the five buckets count equal ratings and add up to the total. */
  lemma EventSummaryStats(d: Db, eventId: int)
    requires FieldsInRange(d)
    requires HasId(d.events, eventId) && Count(d.feedback, FeedbackAt(eventId)) > 0
    ensures var v := EventFeedbackSummary(d, eventId).value;
      var rs := Ratings(v.feedback);
      && v.totalFeedback == Count(d.feedback, FeedbackAt(eventId)) == |rs|
      && (forall f :: f in v.feedback <==> f in d.feedback && f.val.eventId == eventId)
      && v.averageRating == Mean(rs)
      && 1.0 <= v.averageRating <= 5.0
      && v.ratingDistribution.Keys == RatingKeys
      && (forall i :: i in RatingKeys ==> v.ratingDistribution[i] == Occurrences(rs, i))
      && v.ratingDistribution[1] + v.ratingDistribution[2] + v.ratingDistribution[3]
         + v.ratingDistribution[4] + v.ratingDistribution[5] == v.totalFeedback
  {
    var fl := Filter(d.feedback, FeedbackAt(eventId));
    var rs := Ratings(fl);
    assert EventFeedbackSummary(d, eventId) == Ok(FeedbackSummary(|fl|, Mean(rs), Buckets(rs), fl));
    assert forall f :: f in fl ==> ValidRating(f.val.rating);
    RatingsInRange(fl);
    BucketsFacts(rs);
    MeanBounds(rs);
  }

  lemma RatingsInRange(t: Table<Feedback>)
    requires forall f :: f in t ==> ValidRating(f.val.rating)
    ensures forall x :: x in Ratings(t) ==> ValidRating(x)
  {
    var rs := Ratings(t);
    forall x | x in rs ensures ValidRating(x) {
      var i :| 0 <= i < |rs| && rs[i] == x;
      assert t[i] in t;
    }
  }

  /** The five buckets of ratings within 1..5: exactly those keys, each the
      count of equal ratings, together the number of ratings. */
  lemma BucketsFacts(rs: seq<int>)
    requires forall r :: r in rs ==> ValidRating(r)
    ensures var b := Buckets(rs);
      && b.Keys == RatingKeys
      && (forall i :: i in RatingKeys ==> b[i] == Occurrences(rs, i))
      && b[1] + b[2] + b[3] + b[4] + b[5] == |rs|
  {
    BucketsPartition(rs);
  }

  // ---------------------------------------------------------------------
  // Overall statistics (get_overall_feedback_statistics)

  datatype FeedbackStatistics = FeedbackStatistics(
    totalFeedback: nat,
    averageRating: real,
    ratingDistribution: map<int, nat>,
    eventsWithFeedback: nat)

  /** The distinct event ids among the records. */
  function EventIdsOf(t: Table<Feedback>): (r: set<int>)
    ensures forall e :: e in r <==> exists f :: f in t && f.val.eventId == e
    ensures |r| <= |t|
  {
    if |t| == 0 then {}
    else
      var r' := EventIdsOf(t[..|t| - 1]);
      assert forall f :: f in t <==> f in t[..|t| - 1] || f == t[|t| - 1];
      r' + {t[|t| - 1].val.eventId}
  }

  /** Every rating that occurs, as grouped by the query. */
  function RatingsPresent(rs: seq<int>): set<int> {
    set r | r in rs
  }

  /** All five buckets start at zero and every grouped rating then sets its count. */
  function OverallDistribution(rs: seq<int>): map<int, nat> {
    map i | i in RatingKeys + RatingsPresent(rs) :: Occurrences(rs, i)
  }

  function OverallFeedbackStatistics(d: Db): FeedbackStatistics {
    if |d.feedback| == 0 then FeedbackStatistics(0, 0.0, map[], 0)
    else
      var rs := Ratings(d.feedback);
      FeedbackStatistics(|d.feedback|, Mean(rs), OverallDistribution(rs), |EventIdsOf(d.feedback)|)
  }

  lemma OverallStatisticsEmpty(d: Db)
    requires |d.feedback| == 0
    ensures OverallFeedbackStatistics(d) == FeedbackStatistics(0, 0.0, map[], 0)
  {
  }

  /** With feedback present the five buckets are always there (zero when
      unused) and, under the rating constraint, no other key appears; the
      average is the mean rating, within 1..5. */
  lemma OverallStatisticsRatings(d: Db)
    requires FieldsInRange(d) && |d.feedback| > 0
    ensures var st := OverallFeedbackStatistics(d);
      var rs := Ratings(d.feedback);
      && st.totalFeedback == |d.feedback|
      && st.averageRating == Mean(rs)
      && 1.0 <= st.averageRating <= 5.0
      && st.ratingDistribution == Buckets(rs)
      && st.ratingDistribution[1] + st.ratingDistribution[2] + st.ratingDistribution[3]
         + st.ratingDistribution[4] + st.ratingDistribution[5] == st.totalFeedback
  {
    var rs := Ratings(d.feedback);
    RatingsInRange(d.feedback);
    assert RatingsPresent(rs) <= RatingKeys;
    assert RatingKeys + RatingsPresent(rs) == RatingKeys;
    assert OverallDistribution(rs) == Buckets(rs);
    BucketsFacts(rs);
    MeanBounds(rs);
  }

  /** The number of events with feedback is the number of distinct event
      ids, at least one and at most the number of records. */
  lemma OverallStatisticsEvents(d: Db)
    requires |d.feedback| > 0
    ensures var st := OverallFeedbackStatistics(d);
      && st.eventsWithFeedback == |set f | f in d.feedback :: f.val.eventId|
      && 1 <= st.eventsWithFeedback <= st.totalFeedback
  {
    var ids := EventIdsOf(d.feedback);
    assert ids == set f | f in d.feedback :: f.val.eventId;
    assert d.feedback[0] in d.feedback;
    assert d.feedback[0].val.eventId in ids;
  }
}
