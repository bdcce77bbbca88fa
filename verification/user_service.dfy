/** `UserService` over the users table, a map from id to row; the repository it delegates to is
    folded in. */
module UserStore {
  import opened Wrappers
  import opened UserModel

  /** Why the persistence layer refused a write. */
  datatype DbError =
    | ConstraintViolation  // a not-null or unique column declaration does not hold
    | StaleEntity          // an entity with an id whose row is gone

  class UserService {
    /** The stored rows, by id. */
    var rows: map<int, UserData>
    /** The next identity value the table hands out. */
    var nextId: int

    /** `d` may be stored under id `k`: its columns are filled and no other row has its username
        or its email (both columns are declared unique). */
    ghost predicate Admits(k: int, d: UserData)
      reads this
    {
      && ColumnsOk(d)
      && forall other | other in rows && other != k ::
           rows[other].username != d.username && rows[other].email != d.email
    }

    /** Every row sits under its own id, below the identity counter, and meets its column
        declarations, uniqueness included. */
    ghost predicate Valid()
      reads this
    {
      && 0 < nextId
      && forall id | id in rows :: 0 < id < nextId && rows[id].id == Some(id) && Admits(id, rows[id])
    }

    /** Whether a row may be stored does not depend on its profile image. */
    lemma AdmitsIgnoresImage(k: int, d: UserData, url: Option<string>)
      requires Admits(k, d)
      ensures Admits(k, d.(profileImageUrl := url))
    {
    }

    constructor ()
      ensures rows == map[] && nextId == 1 && Valid()
    {
      rows, nextId := map[], 1;
    }

    /** `findById`: a new entity object loaded from the row, or empty when there is no row. */
    method FindById(id: int) returns (u: Option<User>)
      ensures u.None? <==> id !in rows
      ensures u.Some? ==> fresh(u.value) && u.value.Data() == rows[id]
    {
      if id in rows {
        var user := new User.Load(rows[id]);
        u := Some(user);
      } else {
        u := None;
      }
    }

    /** `findByUsername`: the user holding that username, loaded from its row, or empty. */
    method FindByUsername(username: Option<string>) returns (u: Option<User>)
      requires Valid()
      ensures u.None? <==> forall id | id in rows :: rows[id].username != username
      ensures u.Some? ==>
        && fresh(u.value) && u.value.username == username
        && u.value.id.Some? && u.value.id.value in rows && u.value.Data() == rows[u.value.id.value]
    {
      if exists id | id in rows :: rows[id].username == username {
        var id :| id in rows && rows[id].username == username;
        var user := new User.Load(rows[id]);
        u := Some(user);
      } else {
        u := None;
      }
    }

    /** `save`: a user without an id is inserted under the next identity value, which is written
        back into the entity; a user with an id overwrites that row. A row that breaks its column
        declarations, or an id with no row, is refused and nothing changes. */
    method Save(u: User) returns (r: Result<UserData, DbError>)
      requires Valid()
      modifies this, u
      ensures Valid()
      ensures old(u.id).Some? && old(u.id.value) !in old(rows) ==>
        r == Failure(StaleEntity) && unchanged(this, u)
      ensures old(u.id).None? && !old(Admits(nextId, u.Data())) ==>
        r == Failure(ConstraintViolation) && unchanged(this, u)
      ensures old(u.id).Some? && old(u.id.value) in old(rows) && !old(Admits(u.id.value, u.Data())) ==>
        r == Failure(ConstraintViolation) && unchanged(this, u)
      ensures old(u.id).None? && old(Admits(nextId, u.Data())) ==>
        && r == Success(old(u.Data()).(id := Some(old(nextId))))
        && u.Data() == r.value
        && rows == old(rows)[old(nextId) := r.value]
        && nextId == old(nextId) + 1
      ensures old(u.id).Some? && old(u.id.value) in old(rows) && old(Admits(u.id.value, u.Data())) ==>
        && r == Success(old(u.Data()))
        && rows == old(rows)[old(u.id.value) := old(u.Data())]
        && unchanged(u) && nextId == old(nextId)
    {
      if u.id.Some? && u.id.value !in rows {
        return Failure(StaleEntity);
      }
      var k := if u.id.Some? then u.id.value else nextId;
      if !(ColumnsOk(u.Data()) && forall other | other in rows && other != k ::
             rows[other].username != u.username && rows[other].email != u.email) {
        return Failure(ConstraintViolation);
      }
      if u.id.None? {
        u.SetId(Some(nextId));
        rows := rows[nextId := u.Data()];
        nextId := nextId + 1;
      } else {
        rows := rows[k := u.Data()];
      }
      r := Success(u.Data());
    }
  }
}
