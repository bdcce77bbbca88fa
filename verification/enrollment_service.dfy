/** `EnrollmentService` over the enrollments table, kept as a sequence of rows in insertion order;
    the repository's derived queries are folded in. */
module EnrollmentStore {
  import opened Wrappers

  /** One row of the enrollments table: the user and the course it links, by id. */
  datatype Enrollment = Enrollment(id: int, userId: int, courseId: int)

  /** Why a lookup or an unenrollment failed; each is a `RuntimeException` in the backend. */
  datatype EnrollmentError =
    | EnrollmentNotFound  // no row for the pair
    | NonUniqueResult     // more than one row for the pair where the query expects one

  /** The query conditions of the derived repository methods. */
  function OfUser(userId: int): Enrollment -> bool {
    (e: Enrollment) => e.userId == userId
  }

  function OfCourse(courseId: int): Enrollment -> bool {
    (e: Enrollment) => e.courseId == courseId
  }

  function OfPair(userId: int, courseId: int): Enrollment -> bool {
    (e: Enrollment) => e.userId == userId && e.courseId == courseId
  }

  function Not(keep: Enrollment -> bool): Enrollment -> bool {
    (e: Enrollment) => !keep(e)
  }

  /** The rows a query selects, in table order. */
  function Filter(es: seq<Enrollment>, keep: Enrollment -> bool): (r: seq<Enrollment>)
    ensures |r| <= |es|
    ensures forall e :: e in r <==> e in es && keep(e)
  {
    if es == [] then []
    else (if keep(es[0]) then [es[0]] else []) + Filter(es[1..], keep)
  }

  /** The `count` query: the number of rows matching a condition. */
  function Count(es: seq<Enrollment>, keep: Enrollment -> bool): nat {
    if es == [] then 0
    else (if keep(es[0]) then 1 else 0) + Count(es[1..], keep)
  }

  /** A count is the size of the list the matching find query returns. */
  lemma {:induction false} CountIsFilterSize(es: seq<Enrollment>, keep: Enrollment -> bool)
    ensures Count(es, keep) == |Filter(es, keep)|
    decreases |es|
  {
    if es != [] {
      CountIsFilterSize(es[1..], keep);
    }
  }

  /** A condition every row meets keeps the whole table. */
  lemma {:induction false} EveryRowKept(es: seq<Enrollment>, keep: Enrollment -> bool)
    requires forall e | e in es :: keep(e)
    ensures Filter(es, keep) == es
    decreases |es|
  {
    if es != [] {
      assert es[0] in es;
      assert forall e | e in es[1..] :: e in es;
      EveryRowKept(es[1..], keep);
      assert es == [es[0]] + es[1..];
    }
  }

  /** Keeping the matching rows and keeping the others split the table between them. */
  lemma {:induction false} FilterSplits(es: seq<Enrollment>, keep: Enrollment -> bool)
    ensures |Filter(es, keep)| + |Filter(es, Not(keep))| == |es|
    decreases |es|
  {
    if es != [] {
      FilterSplits(es[1..], keep);
    }
  }

  /** A condition no row meets selects nothing. */
  lemma {:induction false} NothingKept(es: seq<Enrollment>, keep: Enrollment -> bool)
    requires forall e | e in es :: !keep(e)
    ensures Filter(es, keep) == []
    decreases |es|
  {
    if es != [] {
      assert forall e | e in es[1..] :: e in es;
      NothingKept(es[1..], keep);
    }
  }

  /** Two conditions that agree on every row select the same rows. */
  lemma {:induction false} FilterAgrees(es: seq<Enrollment>, p: Enrollment -> bool, q: Enrollment -> bool)
    requires forall e | e in es :: p(e) == q(e)
    ensures Filter(es, p) == Filter(es, q)
    decreases |es|
  {
    if es != [] {
      assert forall e | e in es[1..] :: e in es;
      FilterAgrees(es[1..], p, q);
    }
  }

  /** A relation holds between every row and each row after it. */
  ghost predicate Pairwise(es: seq<Enrollment>, rel: (Enrollment, Enrollment) -> bool) {
    forall i, j | 0 <= i < j < |es| :: rel(es[i], es[j])
  }

  function IdBefore(): (Enrollment, Enrollment) -> bool {
    (a: Enrollment, b: Enrollment) => a.id < b.id
  }

  function OtherPair(): (Enrollment, Enrollment) -> bool {
    (a: Enrollment, b: Enrollment) => !(a.userId == b.userId && a.courseId == b.courseId)
  }

  /** Row ids increase along the table, so no two rows share one. */
  ghost predicate IdsIncrease(es: seq<Enrollment>) {
    Pairwise(es, IdBefore())
  }

  /** No (user, course) pair is enrolled twice. */
  ghost predicate PairsUnique(es: seq<Enrollment>) {
    Pairwise(es, OtherPair())
  }

  /** Dropping rows keeps any relation that held between every row and the rows after it. */
  lemma {:induction false} FilterKeepsPairwise(es: seq<Enrollment>, keep: Enrollment -> bool, rel: (Enrollment, Enrollment) -> bool)
    requires Pairwise(es, rel)
    ensures Pairwise(Filter(es, keep), rel)
    decreases |es|
  {
    if es != [] {
      var rest := es[1..];
      assert Pairwise(rest, rel) by {
        forall i, j | 0 <= i < j < |rest| ensures rel(rest[i], rest[j]) {
          assert rest[i] == es[i + 1] && rest[j] == es[j + 1];
        }
      }
      FilterKeepsPairwise(rest, keep, rel);
      var tail := Filter(rest, keep);
      var r := Filter(es, keep);
      if keep(es[0]) {
        assert r == [es[0]] + tail;
        forall i, j | 0 <= i < j < |r| ensures rel(r[i], r[j]) {
          if i == 0 {
            assert r[j] == tail[j - 1] && r[j] in rest;
            var k :| 0 <= k < |rest| && rest[k] == r[j];
            assert es[k + 1] == r[j];
          } else {
            assert r[i] == tail[i - 1] && r[j] == tail[j - 1];
          }
        }
      } else {
        assert r == tail;
      }
    }
  }

  /** With unique pairs, the lookup of a pair finds at most one row. */
  lemma {:induction false} PairsUniqueAtMostOne(es: seq<Enrollment>, userId: int, courseId: int)
    requires PairsUnique(es)
    ensures |Filter(es, OfPair(userId, courseId))| <= 1
    decreases |es|
  {
    if es != [] {
      var rest := es[1..];
      assert PairsUnique(rest) by {
        forall i, j | 0 <= i < j < |rest| ensures !(rest[i].userId == rest[j].userId && rest[i].courseId == rest[j].courseId) {
          assert rest[i] == es[i + 1] && rest[j] == es[j + 1];
        }
      }
      PairsUniqueAtMostOne(rest, userId, courseId);
      if OfPair(userId, courseId)(es[0]) {
        // no later row repeats the pair of the first
        forall e | e in rest ensures !OfPair(userId, courseId)(e) {
          var j :| 0 <= j < |rest| && rest[j] == e;
          assert es[j + 1] == e;
        }
        NothingKept(rest, OfPair(userId, courseId));
      }
    }
  }

  /** Enrolling a pair that is not yet enrolled keeps pairs unique. */
  lemma EnrollKeepsPairsUnique(es: seq<Enrollment>, e: Enrollment)
    requires PairsUnique(es)
    requires Filter(es, OfPair(e.userId, e.courseId)) == []
    ensures PairsUnique(es + [e])
  {
    var es' := es + [e];
    forall i, j | 0 <= i < j < |es'| ensures !(es'[i].userId == es'[j].userId && es'[i].courseId == es'[j].courseId) {
      if j == |es| {
        assert es'[i] in es;
        assert es'[i] !in Filter(es, OfPair(e.userId, e.courseId));
      } else {
        assert es'[i] == es[i] && es'[j] == es[j];
      }
    }
  }

  class EnrollmentService {
    /** The enrollment rows, in insertion order. */
    var rows: seq<Enrollment>
    /** The next identity value the table hands out. */
    var nextId: int

    /** Row ids are positive, increase along the table and stay below the identity counter. */
    ghost predicate Valid()
      reads this
    {
      && 0 < nextId
      && IdsIncrease(rows)
      && (forall e | e in rows :: 0 < e.id < nextId)
    }

    constructor ()
      ensures rows == [] && nextId == 1 && Valid()
    {
      rows, nextId := [], 1;
    }

    /** `enrollUser`: stores exactly one new row linking the user and the course, and returns it. */
    method EnrollUser(userId: int, courseId: int) returns (e: Enrollment)
      requires Valid()
      modifies this
      ensures Valid()
      ensures e == Enrollment(old(nextId), userId, courseId)
      ensures rows == old(rows) + [e] && nextId == old(nextId) + 1
    {
      e := Enrollment(nextId, userId, courseId);
      rows := rows + [e];
      nextId := nextId + 1;
    }

    /** `getUserEnrollments`: the rows of that user. */
    function GetUserEnrollments(userId: int): (r: seq<Enrollment>)
      reads this
      ensures forall e :: e in r <==> e in rows && e.userId == userId
    {
      Filter(rows, OfUser(userId))
    }

    /** `getCourseEnrollments`: the rows of that course. */
    function GetCourseEnrollments(courseId: int): (r: seq<Enrollment>)
      reads this
      ensures forall e :: e in r <==> e in rows && e.courseId == courseId
    {
      Filter(rows, OfCourse(courseId))
    }

    /** `isUserEnrolled`: some row links that user and that course. */
    predicate IsUserEnrolled(userId: int, courseId: int)
      reads this
      ensures IsUserEnrolled(userId, courseId) <==>
        exists i | 0 <= i < |rows| :: rows[i].userId == userId && rows[i].courseId == courseId
    {
      var found := Filter(rows, OfPair(userId, courseId));
      if found == [] then
        assert forall i | 0 <= i < |rows| :: rows[i] in rows && rows[i] !in found;
        false
      else
        assert found[0] in found;
        true
    }

    /** `getEnrollment`: the row of the pair, empty when there is none, and an error when the
        single-result query meets more than one. */
    function GetEnrollment(userId: int, courseId: int): (r: Result<Option<Enrollment>, EnrollmentError>)
      reads this
      ensures r == Success(None) <==> !IsUserEnrolled(userId, courseId)
      ensures r.Success? && r.value.Some? ==>
        r.value.value in rows && r.value.value.userId == userId && r.value.value.courseId == courseId
      ensures r.Failure? ==> r.error == NonUniqueResult
      ensures PairsUnique(rows) ==> r.Success?
    {
      var found := Filter(rows, OfPair(userId, courseId));
      if found == [] then Success(None)
      else if |found| == 1 then
        assert found[0] in found;
        Success(Some(found[0]))
      else
        assert !PairsUnique(rows) by {
          if PairsUnique(rows) {
            PairsUniqueAtMostOne(rows, userId, courseId);
          }
        }
        Failure(NonUniqueResult)
    }

    /** `getAllEnrollments`. */
    function GetAllEnrollments(): (r: seq<Enrollment>)
      reads this
      ensures r == rows
    {
      rows
    }

    /** `countTotalEnrollments`. */
    function CountTotalEnrollments(): (n: nat)
      reads this
      ensures n == |GetAllEnrollments()|
    {
      |rows|
    }

    /** `countUserEnrollments`: as many as `getUserEnrollments` lists. */
    function CountUserEnrollments(userId: int): (n: nat)
      reads this
      ensures n == |GetUserEnrollments(userId)|
    {
      CountIsFilterSize(rows, OfUser(userId));
      Count(rows, OfUser(userId))
    }

    /** `countCourseEnrollments`: as many as `getCourseEnrollments` lists. */
    function CountCourseEnrollments(courseId: int): (n: nat)
      reads this
      ensures n == |GetCourseEnrollments(courseId)|
    {
      CountIsFilterSize(rows, OfCourse(courseId));
      Count(rows, OfCourse(courseId))
    }

    /** `unenrollUser`: deletes the row of the pair; with none it throws and nothing changes.
        Rows of other pairs stay, in order. */
    method UnenrollUser(userId: int, courseId: int) returns (r: Result<(), EnrollmentError>)
      requires Valid()
      modifies this
      ensures Valid()
      ensures !old(IsUserEnrolled(userId, courseId)) ==> r == Failure(EnrollmentNotFound) && unchanged(this)
      ensures old(GetEnrollment(userId, courseId)).Failure? ==> r == Failure(NonUniqueResult) && unchanged(this)
      ensures old(GetEnrollment(userId, courseId)).Success? && old(IsUserEnrolled(userId, courseId)) ==>
        && r == Success(())
        && rows == Filter(old(rows), Not(OfPair(userId, courseId)))
        && |rows| == |old(rows)| - 1
        && nextId == old(nextId)
    {
      var found := GetEnrollment(userId, courseId);
      match found {
        case Failure(err) => r := Failure(err);
        case Success(None) => r := Failure(EnrollmentNotFound);
        case Success(Some(e)) =>
          // `delete(entity)` removes the row carrying the entity's id
          var remaining := Filter(rows, Not(OfId(e.id)));
          SameRowsRemoved(rows, e, userId, courseId);
          FilterKeepsPairwise(rows, Not(OfId(e.id)), IdBefore());
          FilterSplits(rows, OfPair(userId, courseId));
          rows := remaining;
          r := Success(());
      }
    }

    /** `deleteAllUserEnrollments`: removes exactly the rows of that user; all others stay, in
        order. */
    method DeleteAllUserEnrollments(userId: int)
      requires Valid()
      modifies this
      ensures Valid()
      ensures rows == Filter(old(rows), Not(OfUser(userId))) && nextId == old(nextId)
      ensures forall e :: e in rows <==> e in old(rows) && e.userId != userId
      ensures |rows| == |old(rows)| - old(CountUserEnrollments(userId))
    {
      FilterKeepsPairwise(rows, Not(OfUser(userId)), IdBefore());
      FilterSplits(rows, OfUser(userId));
      rows := Filter(rows, Not(OfUser(userId)));
    }

    /** `deleteAllCourseEnrollments`: removes exactly the rows of that course; all others stay,
        in order. */
    method DeleteAllCourseEnrollments(courseId: int)
      requires Valid()
      modifies this
      ensures Valid()
      ensures rows == Filter(old(rows), Not(OfCourse(courseId))) && nextId == old(nextId)
      ensures forall e :: e in rows <==> e in old(rows) && e.courseId != courseId
      ensures |rows| == |old(rows)| - old(CountCourseEnrollments(courseId))
    {
      FilterKeepsPairwise(rows, Not(OfCourse(courseId)), IdBefore());
      FilterSplits(rows, OfCourse(courseId));
      rows := Filter(rows, Not(OfCourse(courseId)));
    }
  }

  /** The condition of `delete(entity)`: the row with that id. */
  function OfId(id: int): Enrollment -> bool {
    (e: Enrollment) => e.id == id
  }

  /** Deleting the single row found for a pair, by its id, removes exactly the rows of that pair. */
  lemma SameRowsRemoved(es: seq<Enrollment>, found: Enrollment, userId: int, courseId: int)
    requires IdsIncrease(es)
    requires Filter(es, OfPair(userId, courseId)) == [found]
    ensures Filter(es, Not(OfId(found.id))) == Filter(es, Not(OfPair(userId, courseId)))
  {
    assert found in Filter(es, OfPair(userId, courseId));
    forall e | e in es ensures Not(OfId(found.id))(e) == Not(OfPair(userId, courseId))(e) {
      if OfPair(userId, courseId)(e) {
        assert e in Filter(es, OfPair(userId, courseId));
      }
    }
    FilterAgrees(es, Not(OfId(found.id)), Not(OfPair(userId, courseId)));
  }
}
