/** `EnrollmentController`: the guarded enroll and unenroll transitions and the two listings. */
module EnrollmentEndpoints {
  import opened Wrappers
  import opened Http
  import opened EnrollmentStore
  import CourseModel
  import CourseStore
  import UserStore

  /** The enrollments whose course row still exists. */
  function HasCourse(courseRows: map<int, CourseModel.CourseData>): Enrollment -> bool {
    (e: Enrollment) => e.courseId in courseRows
  }

  /** The courses behind a list of enrollments, in order; an enrollment whose course row is gone
      yields no entry. */
  function CoursesOf(es: seq<Enrollment>, courseRows: map<int, CourseModel.CourseData>): (r: seq<CourseModel.CourseData>)
    ensures |r| == |Filter(es, HasCourse(courseRows))| <= |es|
    ensures forall i | 0 <= i < |r| ::
      Filter(es, HasCourse(courseRows))[i].courseId in courseRows &&
      r[i] == courseRows[Filter(es, HasCourse(courseRows))[i].courseId]
    ensures forall c :: c in r <==> exists e | e in es :: e.courseId in courseRows && courseRows[e.courseId] == c
  {
    if es == [] then []
    else
      var rest := CoursesOf(es[1..], courseRows);
      assert forall e | e in es[1..] :: e in es;
      assert forall e | e in es :: e == es[0] || e in es[1..];
      if es[0].courseId in courseRows then [courseRows[es[0].courseId]] + rest else rest
  }

  class EnrollmentController {
    const enrollmentService: EnrollmentService
    const userService: UserStore.UserService
    const courseService: CourseStore.CourseService

    /** The three tables are consistent and, because every enrollment goes through the guard of
        `enrollInCourse`, no (user, course) pair is enrolled twice. */
    ghost predicate Valid()
      reads this, enrollmentService, userService, courseService
    {
      && enrollmentService.Valid()
      && userService.Valid()
      && courseService.Valid()
      && PairsUnique(enrollmentService.rows)
    }

    constructor (enrollmentService: EnrollmentService, userService: UserStore.UserService, courseService: CourseStore.CourseService)
      requires enrollmentService.Valid() && userService.Valid() && courseService.Valid()
      requires PairsUnique(enrollmentService.rows)
      ensures this.enrollmentService == enrollmentService && this.userService == userService
      ensures this.courseService == courseService
      ensures Valid()
    {
      this.enrollmentService, this.userService, this.courseService := enrollmentService, userService, courseService;
    }

    /** `enrollInCourse`: 404 for a missing user, then 404 for a missing course, then 409 for a
        pair already enrolled, each leaving the enrollments as they were; otherwise exactly one
        enrollment of the pair is added. */
    method EnrollInCourse(userId: int, courseId: int) returns (resp: Response, enrollment: Option<Enrollment>)
      requires Valid()
      modifies enrollmentService
      ensures Valid()
      ensures userId !in userService.rows ==> resp == Fail(NotFound)
      ensures userId in userService.rows && courseId !in courseService.rows ==> resp == Fail(NotFound)
      ensures userId in userService.rows && courseId in courseService.rows && old(enrollmentService.IsUserEnrolled(userId, courseId)) ==>
        resp == Fail(Conflict)
      ensures resp.success <==>
        userId in userService.rows && courseId in courseService.rows && !old(enrollmentService.IsUserEnrolled(userId, courseId))
      ensures !resp.success ==> enrollment.None? && unchanged(enrollmentService)
      ensures resp.success ==>
        && resp == Response(Ok, true)
        && enrollment == Some(Enrollment(old(enrollmentService.nextId), userId, courseId))
        && enrollmentService.rows == old(enrollmentService.rows) + [enrollment.value]
        && enrollmentService.IsUserEnrolled(userId, courseId)
    {
      var user := userService.FindById(userId);
      if user.None? {
        return Fail(NotFound), None;
      }
      var course := courseService.FindById(courseId);
      if course.None? {
        return Fail(NotFound), None;
      }
      if enrollmentService.IsUserEnrolled(userId, courseId) {
        return Fail(Conflict), None;
      }
      NotEnrolledFindsNothing(enrollmentService.rows, userId, courseId);
      EnrollKeepsPairsUnique(enrollmentService.rows, Enrollment(enrollmentService.nextId, userId, courseId));
      var e := enrollmentService.EnrollUser(userId, courseId);
      assert enrollmentService.rows[|enrollmentService.rows| - 1] == e;
      resp, enrollment := Response(Ok, true), Some(e);
    }

    /** `getUserCourses`: 404 for a missing user; otherwise the courses of the user's enrollments
        that still exist, with their number as "count". */
    method GetUserCourses(userId: int) returns (resp: Response, courses: seq<CourseModel.CourseData>, count: int)
      ensures userId !in userService.rows ==> resp == Fail(NotFound) && courses == []
      ensures userId in userService.rows ==> resp == Response(Ok, true)
      ensures forall c :: c in courses <==>
        userId in userService.rows &&
        exists e | e in enrollmentService.rows :: e.userId == userId && e.courseId in courseService.rows && courseService.rows[e.courseId] == c
      ensures userId in userService.rows ==>
        && |courses| == |Filter(enrollmentService.GetUserEnrollments(userId), HasCourse(courseService.rows))|
        && forall i | 0 <= i < |courses| ::
             var e := Filter(enrollmentService.GetUserEnrollments(userId), HasCourse(courseService.rows))[i];
             e.courseId in courseService.rows && courses[i] == courseService.rows[e.courseId]
      ensures count == |courses| <= enrollmentService.CountUserEnrollments(userId)
      ensures userId in userService.rows ==>
        (forall e | e in enrollmentService.rows && e.userId == userId :: e.courseId in courseService.rows) ==>
        count == enrollmentService.CountUserEnrollments(userId)
    {
      var user := userService.FindById(userId);
      if user.None? {
        return Fail(NotFound), [], 0;
      }
      var es := enrollmentService.GetUserEnrollments(userId);
      courses := CoursesOf(es, courseService.rows);
      if forall e | e in enrollmentService.rows && e.userId == userId :: e.courseId in courseService.rows {
        EveryRowKept(es, HasCourse(courseService.rows));
      }
      resp, count := Response(Ok, true), |courses|;
    }

    /** `unenrollFromCourse`: 404 for a missing user, a missing course or a pair that is not
        enrolled, each leaving the enrollments as they were; otherwise the pair's one enrollment
        goes and every other stays. */
    method UnenrollFromCourse(userId: int, courseId: int) returns (resp: Response)
      requires Valid()
      modifies enrollmentService
      ensures Valid()
      ensures resp.success <==>
        userId in userService.rows && courseId in courseService.rows && old(enrollmentService.IsUserEnrolled(userId, courseId))
      ensures !resp.success ==> resp == Fail(NotFound) && unchanged(enrollmentService)
      ensures resp.success ==>
        && resp == Response(Ok, true)
        && enrollmentService.rows == Filter(old(enrollmentService.rows), Not(OfPair(userId, courseId)))
        && |enrollmentService.rows| == |old(enrollmentService.rows)| - 1
        && !enrollmentService.IsUserEnrolled(userId, courseId)
    {
      var user := userService.FindById(userId);
      if user.None? {
        return Fail(NotFound);
      }
      var course := courseService.FindById(courseId);
      if course.None? {
        return Fail(NotFound);
      }
      if !enrollmentService.IsUserEnrolled(userId, courseId) {
        return Fail(NotFound);
      }
      FilterKeepsPairwise(enrollmentService.rows, Not(OfPair(userId, courseId)), OtherPair());
      var r := enrollmentService.UnenrollUser(userId, courseId);
      assert forall e | e in enrollmentService.rows :: !OfPair(userId, courseId)(e);
      assert forall i | 0 <= i < |enrollmentService.rows| :: enrollmentService.rows[i] in enrollmentService.rows;
      resp := Response(Ok, true);
    }

    /** `getCourseEnrollments`: 404 for a missing course; otherwise that course's enrollments in
        table order, with "count" their number, which the count query for the course agrees with. */
    method GetCourseEnrollments(courseId: int) returns (resp: Response, enrollments: seq<Enrollment>, count: int)
      ensures courseId !in courseService.rows ==> resp == Fail(NotFound) && enrollments == []
      ensures courseId in courseService.rows ==>
        && resp == Response(Ok, true)
        && (forall e :: e in enrollments <==> e in enrollmentService.rows && e.courseId == courseId)
        && enrollments == Filter(enrollmentService.rows, OfCourse(courseId))
        && count == |enrollments| == enrollmentService.CountCourseEnrollments(courseId)
    {
      var course := courseService.FindById(courseId);
      if course.None? {
        return Fail(NotFound), [], 0;
      }
      enrollments := enrollmentService.GetCourseEnrollments(courseId);
      resp, count := Response(Ok, true), |enrollments|;
    }
  }

  /** A pair `isUserEnrolled` denies has no row for the lookup to find. */
  lemma NotEnrolledFindsNothing(es: seq<Enrollment>, userId: int, courseId: int)
    requires !exists i | 0 <= i < |es| :: es[i].userId == userId && es[i].courseId == courseId
    ensures Filter(es, OfPair(userId, courseId)) == []
  {
    forall e | e in es ensures !OfPair(userId, courseId)(e) {
      var i :| 0 <= i < |es| && es[i] == e;
    }
    NothingKept(es, OfPair(userId, courseId));
  }
}
