/** `CourseService` over the courses table, a map from id to row; the repository it delegates to
    is folded in. */
module CourseStore {
  import opened Wrappers
  import opened CourseModel
  import Text

  /** Why the persistence layer refused a write. */
  datatype DbError =
    | ConstraintViolation  // a column declaration does not hold
    | StaleEntity          // an entity with an id whose row is gone

  /** Why a service operation failed; each is a `RuntimeException` in the backend. */
  datatype ServiceError = CourseNotFound | Db(error: DbError)

  class CourseService {
    /** The stored rows, by id. */
    var rows: map<int, CourseData>
    /** The next identity value the table hands out. */
    var nextId: int

    /** Every row sits under its own id, below the identity counter, and meets its column
        declarations. */
    ghost predicate Valid()
      reads this
    {
      && 0 < nextId
      && forall id | id in rows :: 0 < id < nextId && rows[id].id == Some(id) && ColumnsOk(rows[id])
    }

    constructor ()
      ensures rows == map[] && nextId == 1 && Valid()
    {
      rows, nextId := map[], 1;
    }

    /** `getAllCourses`: every stored course, each once (as a set: the order of the list is not
        modelled). */
    function GetAllCourses(): (r: set<CourseData>)
      requires Valid()
      reads this
      ensures forall id | id in rows :: rows[id] in r
      ensures forall c | c in r :: c.id.Some? && c.id.value in rows && rows[c.id.value] == c
    {
      set id | id in rows :: rows[id]
    }

    /** `findById`: a new entity object loaded from the row, or empty when there is no row. */
    method FindById(id: int) returns (c: Option<Course>)
      ensures c.None? <==> id !in rows
      ensures c.Some? ==> fresh(c.value) && c.value.Data() == rows[id]
    {
      if id in rows {
        var course := new Course.Load(rows[id]);
        c := Some(course);
      } else {
        c := None;
      }
    }

    /** `getCourseById`: as `findById`, with null for a missing row. */
    method GetCourseById(id: int) returns (c: Course?)
      ensures c == null <==> id !in rows
      ensures c != null ==> fresh(c) && c.Data() == rows[id]
    {
      var found := FindById(id);
      c := if found.Some? then found.value else null;
    }

    /** `saveCourse` (and `save`): a course without an id is inserted under the next identity value,
        which is written back into the entity; a course with an id overwrites that row. A row that
        breaks its column declarations, or an id with no row, is refused and nothing changes. */
    method Save(c: Course) returns (r: Result<CourseData, DbError>)
      requires Valid()
      modifies this, c
      ensures Valid()
      ensures old(c.id).Some? && old(c.id.value) !in old(rows) ==>
        r == Failure(StaleEntity) && unchanged(this, c)
      ensures (old(c.id).None? || old(c.id.value) in old(rows)) && !ColumnsOk(old(c.Data())) ==>
        r == Failure(ConstraintViolation) && unchanged(this, c)
      ensures old(c.id).None? && ColumnsOk(old(c.Data())) ==>
        && r == Success(old(c.Data()).(id := Some(old(nextId))))
        && c.Data() == r.value
        && rows == old(rows)[old(nextId) := r.value]
        && nextId == old(nextId) + 1
      ensures old(c.id).Some? && old(c.id.value) in old(rows) && ColumnsOk(old(c.Data())) ==>
        && r == Success(old(c.Data()))
        && rows == old(rows)[old(c.id.value) := old(c.Data())]
        && unchanged(c) && nextId == old(nextId)
    {
      if c.id.Some? && c.id.value !in rows {
        return Failure(StaleEntity);
      }
      if !ColumnsOk(c.Data()) {
        return Failure(ConstraintViolation);
      }
      if c.id.None? {
        c.SetId(Some(nextId));
        rows := rows[nextId := c.Data()];
        nextId := nextId + 1;
      } else {
        rows := rows[c.id.value := c.Data()];
      }
      r := Success(c.Data());
    }

    /** `updateCourse`: "Course not found" for a missing id; otherwise the row takes all six fields
        of the details (a null image or resource URL there clears the stored one) and keeps its id. */
    method UpdateCourse(id: int, details: Course) returns (r: Result<CourseData, ServiceError>)
      requires Valid()
      modifies this
      ensures Valid()
      ensures id !in old(rows) ==> r == Failure(CourseNotFound) && unchanged(this)
      ensures id in old(rows) && ColumnsOk(details.Data()) ==>
        && r == Success(details.Data().(id := Some(id)))
        && rows == old(rows)[id := r.value]
        && nextId == old(nextId)
      ensures id in old(rows) && !ColumnsOk(details.Data()) ==>
        r == Failure(Db(ConstraintViolation)) && unchanged(this)
    {
      var found := FindById(id);
      if found.None? {
        return Failure(CourseNotFound);
      }
      var course := found.value;
      course.SetName(details.name);
      course.SetDescription(details.description);
      course.SetStartDate(details.startDate);
      course.SetPrice(details.price);
      course.SetImageUrl(details.imageUrl);
      course.SetResourceUrl(details.resourceUrl);
      var saved := Save(course);
      r := if saved.Success? then Success(saved.value) else Failure(Db(saved.error));
    }

    /** `deleteCourse`: "Course not found" for a missing id; otherwise exactly that row goes. */
    method DeleteCourse(id: int) returns (r: Result<(), ServiceError>)
      requires Valid()
      modifies this
      ensures Valid()
      ensures id !in old(rows) ==> r == Failure(CourseNotFound) && unchanged(this)
      ensures id in old(rows) ==> r == Success(()) && rows == old(rows) - {id} && nextId == old(nextId)
    {
      var found := FindById(id);
      if found.None? {
        return Failure(CourseNotFound);
      }
      rows := rows - {found.value.id.value};
      r := Success(());
    }

    /** `updateCourseResource`: "Course not found" for a missing id; a URL too long for its column
        is refused with nothing changed; otherwise only the resource URL of that row changes. */
    method UpdateCourseResource(courseId: int, resourceUrl: Option<string>) returns (r: Result<CourseData, ServiceError>)
      requires Valid()
      modifies this
      ensures Valid()
      ensures courseId !in old(rows) ==> r == Failure(CourseNotFound) && unchanged(this)
      ensures courseId in old(rows) && resourceUrl.Some? && |resourceUrl.value| > Text.DefaultColumnLength ==>
        r == Failure(Db(ConstraintViolation)) && unchanged(this)
      ensures courseId in old(rows) && (resourceUrl.None? || |resourceUrl.value| <= Text.DefaultColumnLength) ==>
        && r == Success(old(rows)[courseId].(resourceUrl := resourceUrl))
        && rows == old(rows)[courseId := r.value]
        && nextId == old(nextId)
    {
      var found := FindById(courseId);
      if found.None? {
        return Failure(CourseNotFound);
      }
      var course := found.value;
      course.SetResourceUrl(resourceUrl);
      var saved := Save(course);
      r := if saved.Success? then Success(saved.value) else Failure(Db(saved.error));
    }

    /** `removeCourseResource`: "Course not found" for a missing id; otherwise that row's resource
        URL becomes null and nothing else changes. */
    method RemoveCourseResource(courseId: int) returns (r: Result<CourseData, ServiceError>)
      requires Valid()
      modifies this
      ensures Valid()
      ensures courseId !in old(rows) ==> r == Failure(CourseNotFound) && unchanged(this)
      ensures courseId in old(rows) ==>
        && r == Success(old(rows)[courseId].(resourceUrl := None))
        && rows == old(rows)[courseId := r.value]
        && nextId == old(nextId)
    {
      var found := FindById(courseId);
      if found.None? {
        return Failure(CourseNotFound);
      }
      var course := found.value;
      course.SetResourceUrl(None);
      var saved := Save(course);
      // the loaded row met its column declarations and still exists, so the save goes through
      match saved {
        case Success(d) => r := Success(d);
        case Failure(_) => assert false;
      }
    }
  }
}
