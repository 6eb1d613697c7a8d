/**
 * The employee endpoints (app/api/employee.py). Replies are denormalised: they
 * carry the names of the employee's department, post and role instead of their
 * ids. Creation runs inside `try ... except Exception`, so its 400s reach the
 * client as 500s after a rollback. The partial update has no `try`: its 400s
 * are real 400s. Adding hours and the partial update commit first and build the
 * reply afterwards, so a reply that cannot be built (the employee points at a
 * deleted department, post or role, and the joined row is `None`) is a 500 whose
 * change is already committed.
 */
module EmployeeApi {
  import opened Wrappers
  import opened Models
  import opened Api
  import opened Tables

  /** The body of POST /employees/create; every field is required. */
  datatype EmployeeCreate = EmployeeCreate(
    surname: string,
    name: string,
    patronymic: string,
    login: string,
    password: string,
    otdelId: int,
    postId: int,
    roleId: int)

  /** The reply for one employee. The password is not part of it. */
  datatype EmployeeResponse = EmployeeResponse(
    employeeId: int,
    surname: string,
    name: string,
    patronymic: string,
    login: string,
    idleHours: int,
    nameOtdel: string,
    nameRole: string,
    namePost: string)

  /**
   * One field of a partial update: left out of the body (`Unset`, dropped by
   * `exclude_unset`), sent as JSON null (`Null`), or sent with a value.
   */
  datatype Field<+T> = Unset | Null | Set(value: T) {
    predicate Provided() {
      !Unset?
    }

    /** The field's value after the update, when it is not null. */
    function Or(current: T): T
      requires !Null?
    {
      if Set? then value else current
    }
  }

  /** The body of PATCH /employees/{employee_id}. It has no idle-hours field. */
  datatype EmployeeUpdate = EmployeeUpdate(
    surname: Field<string>,
    name: Field<string>,
    patronymic: Field<string>,
    login: Field<string>,
    password: Field<string>,
    otdelId: Field<int>,
    postId: Field<int>,
    roleId: Field<int>)

  /** The body of the message for a successful delete. */
  const Deleted: string := "Сотрудник успешно удален"

  /** True iff the department, post and role the employee points at all exist. */
  predicate Joinable(s: Store, e: Employee) {
    e.otdelId in s.otdels && e.postId in s.posts && e.roleId in s.roles
  }

  /**
   * The denormalised reply for employee `id`, read through the joins; a missing
   * joined row makes the attribute access fail.
   */
  function View(s: Store, id: int): (r: Result<EmployeeResponse, Failure>)
    requires id in s.employees
    ensures r.Ok? <==> Joinable(s, s.employees[id])
    ensures r.Err? ==> r.error == ServerError(DanglingReference)
    ensures r.Ok? ==> Describes(s, r.value)
    ensures r.Ok? ==> r.value.employeeId == id
  {
    var e := s.employees[id];
    if !Joinable(s, e) then Err(ServerError(DanglingReference))
    else Ok(EmployeeResponse(id, e.surname, e.name, e.patronymic, e.login, e.idleHours,
                             s.otdels[e.otdelId].nameOtdel, s.roles[e.roleId].nameRole, s.posts[e.postId].namePost))
  }

  /**
   * True iff `r` shows a stored employee as it is: its own columns except the
   * password, and the names (not the ids) of its department, post and role.
   */
  ghost predicate Describes(s: Store, r: EmployeeResponse) {
    && r.employeeId in s.employees
    && var e := s.employees[r.employeeId];
    && Joinable(s, e)
    && r.surname == e.surname && r.name == e.name && r.patronymic == e.patronymic
    && r.login == e.login && r.idleHours == e.idleHours
    && r.nameOtdel == s.otdels[e.otdelId].nameOtdel
    && r.namePost == s.posts[e.postId].namePost
    && r.nameRole == s.roles[e.roleId].nameRole
  }

  /** POST /employees/create: department, then post, then role must exist. */
  function CreateEmployee(s: Store, req: EmployeeCreate): (o: Outcome<EmployeeResponse>)
    ensures req.otdelId !in s.otdels ==> o == Outcome(s, Err(ServerError(UnknownOtdel)))
    ensures req.otdelId in s.otdels && req.postId !in s.posts ==> o == Outcome(s, Err(ServerError(UnknownPost)))
    ensures req.otdelId in s.otdels && req.postId in s.posts && req.roleId !in s.roles ==>
      o == Outcome(s, Err(ServerError(UnknownRole)))
    ensures o.reply.Ok? <==> req.otdelId in s.otdels && req.postId in s.posts && req.roleId in s.roles
    ensures o.reply.Ok? ==>
      var id := o.reply.value.employeeId;
      && id !in s.employees
      && o.store.employees == s.employees[id := Employee(req.surname, req.name, req.patronymic, req.login,
                                                          req.password, 0, req.otdelId, req.postId, req.roleId)]
      && o.store == s.(employees := o.store.employees)
      && o.reply.value.idleHours == 0
      && Describes(o.store, o.reply.value)
  {
    if req.otdelId !in s.otdels then Outcome(s, Err(ServerError(UnknownOtdel)))
    else if req.postId !in s.posts then Outcome(s, Err(ServerError(UnknownPost)))
    else if req.roleId !in s.roles then Outcome(s, Err(ServerError(UnknownRole)))
    else
      var id := NextId(s.employees);
      var e := Employee(req.surname, req.name, req.patronymic, req.login, req.password,
                        0, req.otdelId, req.postId, req.roleId);
      var s' := s.(employees := s.employees[id := e]);
      Outcome(s', View(s', id))
  }

  /** The replies for the given employees, failing as soon as one cannot be joined. */
  function ViewAll(s: Store, ids: seq<int>): (r: Result<seq<EmployeeResponse>, Failure>)
    requires forall i | 0 <= i < |ids| :: ids[i] in s.employees
    ensures r.Ok? <==> forall i | 0 <= i < |ids| :: Joinable(s, s.employees[ids[i]])
    ensures r.Err? ==> r.error == ServerError(DanglingReference)
    ensures r.Ok? ==> |r.value| == |ids|
    ensures r.Ok? ==> forall i | 0 <= i < |ids| :: r.value[i].employeeId == ids[i] && Describes(s, r.value[i])
  {
    if ids == [] then Ok([])
    else
      match View(s, ids[0])
      case Err(f) => Err(f)
      case Ok(first) =>
        match ViewAll(s, ids[1..])
        case Err(f) => Err(f)
        case Ok(rest) =>
          assert forall i | 1 <= i < |ids| :: ids[i] == ids[1..][i - 1];
          Ok([first] + rest)
  }

  /** GET /employees/all: every employee in ascending id order, or 500 if one cannot be joined. */
  function GetAllEmployees(s: Store): (o: Outcome<seq<EmployeeResponse>>)
    ensures o.store == s
    ensures o.reply.Ok? <==> forall id | id in s.employees :: Joinable(s, s.employees[id])
    ensures o.reply.Err? ==> o.reply.error == ServerError(DanglingReference)
    ensures o.reply.Ok? ==>
      var rs := o.reply.value;
      && |rs| == |s.employees|
      && (forall i | 0 <= i < |rs| :: Describes(s, rs[i]))
      && (forall id | id in s.employees :: exists i | 0 <= i < |rs| :: rs[i].employeeId == id)
      && (forall i, j | 0 <= i < j < |rs| :: rs[i].employeeId < rs[j].employeeId)
  {
    var ids := Ascending(s.employees.Keys);
    forall i | 0 <= i < |ids|
      ensures ids[i] in s.employees
    {
      assert ids[i] in ids;
    }
    var r := ViewAll(s, ids);
    if r.Ok? then
      var rs := r.value;
      forall i, j | 0 <= i < j < |rs|
        ensures rs[i].employeeId < rs[j].employeeId
      {
        assert rs[i].employeeId == ids[i] && rs[j].employeeId == ids[j];
      }
      forall id | id in s.employees
        ensures exists i | 0 <= i < |rs| :: rs[i].employeeId == id
      {
        assert id in ids;
        var i :| 0 <= i < |ids| && ids[i] == id;
        assert rs[i].employeeId == id;
      }
      Outcome(s, r)
    else
      var i :| 0 <= i < |ids| && !Joinable(s, s.employees[ids[i]]);
      assert ids[i] in s.employees;
      Outcome(s, r)
  }

  /** GET /employees/{employee_id} */
  function GetEmployee(s: Store, id: int): (o: Outcome<EmployeeResponse>)
    ensures o.store == s
    ensures id !in s.employees <==> o.reply == Err(NotFound)
    ensures id in s.employees ==> (o.reply.Ok? <==> Joinable(s, s.employees[id]))
    ensures id in s.employees && o.reply.Err? ==> o.reply.error == ServerError(DanglingReference)
    ensures o.reply.Ok? ==> o.reply.value.employeeId == id && Describes(s, o.reply.value)
  {
    if id !in s.employees then Outcome(s, Err(NotFound))
    else Outcome(s, View(s, id))
  }

  /**
   * PUT /employees/{employee_id}/add-hours: adds a signed delta to the counter.
   * A new counter that does not fit an INTEGER column makes the commit fail:
   * the exception escapes the handler (500) and nothing is written. Otherwise
   * the change is committed even when the reply then fails to join.
   */
  function AddHours(s: Store, id: int, delta: int): (o: Outcome<EmployeeResponse>)
    ensures id !in s.employees <==> o.reply == Err(NotFound)
    ensures id !in s.employees ==> o.store == s
    ensures id in s.employees && !Fits(s.employees[id].idleHours + delta) ==>
      o == Outcome(s, Err(ServerError(OutOfRange)))
    ensures id in s.employees && Fits(s.employees[id].idleHours + delta) ==>
      var e := s.employees[id];
      && o.store.employees == s.employees[id := e.(idleHours := e.idleHours + delta)]
      && o.store == s.(employees := o.store.employees)
      && (o.reply.Ok? <==> Joinable(s, e))
      && (o.reply.Err? ==> o.reply.error == ServerError(DanglingReference))
    ensures o.reply.Ok? ==>
      && o.reply.value.idleHours == s.employees[id].idleHours + delta
      && o.reply.value.employeeId == id
      && Describes(o.store, o.reply.value)
  {
    if id !in s.employees then Outcome(s, Err(NotFound))
    else
      var e := s.employees[id];
      if !Fits(e.idleHours + delta) then Outcome(s, Err(ServerError(OutOfRange)))
      else
        var s' := s.(employees := s.employees[id := e.(idleHours := e.idleHours + delta)]);
        Outcome(s', View(s', id))
  }

  /** True iff a provided reference field names an existing row of `table`. */
  predicate Resolves<T>(f: Field<int>, table: map<int, T>) {
    f.Unset? || (f.Set? && f.value in table)
  }

  /** True iff the update sets some NOT NULL text column to null. */
  predicate SetsNullText(u: EmployeeUpdate) {
    u.surname.Null? || u.name.Null? || u.patronymic.Null? || u.login.Null? || u.password.Null?
  }

  /** True iff a column now holds the field's value if it was provided and its old value if not. */
  predicate Follows<T(==)>(f: Field<T>, before: T, after: T) {
    if f.Set? then after == f.value else after == before
  }

  /**
   * True iff the partial update gets past every check: the employee exists,
   * every provided reference resolves and no text column is set to null.
   */
  predicate Accepted(s: Store, id: int, u: EmployeeUpdate) {
    && id in s.employees
    && Resolves(u.otdelId, s.otdels) && Resolves(u.postId, s.posts) && Resolves(u.roleId, s.roles)
    && !SetsNullText(u)
  }

  /** The employee with exactly the provided fields replaced. */
  function Apply(e: Employee, u: EmployeeUpdate): (e': Employee)
    requires !SetsNullText(u) && !u.otdelId.Null? && !u.postId.Null? && !u.roleId.Null?
  {
    Employee(u.surname.Or(e.surname), u.name.Or(e.name), u.patronymic.Or(e.patronymic),
             u.login.Or(e.login), u.password.Or(e.password), e.idleHours,
             u.otdelId.Or(e.otdelId), u.postId.Or(e.postId), u.roleId.Or(e.roleId))
  }

  /**
   * PATCH /employees/{employee_id}. A provided department, post or role id
   * (null included: `WHERE id IS NULL` finds nothing) must name an existing row,
   * checked in that order, or the answer is a real 400. A null text field
   * violates NOT NULL at commit: 500, nothing written.
   */
  function UpdateEmployee(s: Store, id: int, u: EmployeeUpdate): (o: Outcome<EmployeeResponse>)
    ensures id !in s.employees <==> o.reply == Err(NotFound)
    ensures id !in s.employees ==> o.store == s
    ensures id in s.employees && !Resolves(u.otdelId, s.otdels) ==>
      o == Outcome(s, Err(BadRequest(UnknownOtdel)))
    ensures id in s.employees && Resolves(u.otdelId, s.otdels) && !Resolves(u.postId, s.posts) ==>
      o == Outcome(s, Err(BadRequest(UnknownPost)))
    ensures id in s.employees && Resolves(u.otdelId, s.otdels) && Resolves(u.postId, s.posts)
            && !Resolves(u.roleId, s.roles) ==>
      o == Outcome(s, Err(BadRequest(UnknownRole)))
    ensures id in s.employees && Resolves(u.otdelId, s.otdels) && Resolves(u.postId, s.posts)
            && Resolves(u.roleId, s.roles) && SetsNullText(u) ==>
      o == Outcome(s, Err(ServerError(NullColumn)))
    ensures !Accepted(s, id, u) ==> o.store == s && o.reply.Err?
    ensures Accepted(s, id, u) ==>
      && id in o.store.employees
      && var (e, e') := (s.employees[id], o.store.employees[id]);
      && Follows(u.surname, e.surname, e'.surname)
      && Follows(u.name, e.name, e'.name)
      && Follows(u.patronymic, e.patronymic, e'.patronymic)
      && Follows(u.login, e.login, e'.login)
      && Follows(u.password, e.password, e'.password)
      && Follows(u.otdelId, e.otdelId, e'.otdelId)
      && Follows(u.postId, e.postId, e'.postId)
      && Follows(u.roleId, e.roleId, e'.roleId)
      && e'.idleHours == e.idleHours
      && o.store.employees.Keys == s.employees.Keys
      && (forall k | k in s.employees && k != id :: o.store.employees[k] == s.employees[k])
      && o.store == s.(employees := o.store.employees)
      && (o.reply.Ok? <==> Joinable(o.store, e'))
      && (o.reply.Err? ==> o.reply.error == ServerError(DanglingReference))
    ensures o.reply.Ok? ==> o.reply.value.employeeId == id && Describes(o.store, o.reply.value)
  {
    if id !in s.employees then Outcome(s, Err(NotFound))
    else if !Resolves(u.otdelId, s.otdels) then Outcome(s, Err(BadRequest(UnknownOtdel)))
    else if !Resolves(u.postId, s.posts) then Outcome(s, Err(BadRequest(UnknownPost)))
    else if !Resolves(u.roleId, s.roles) then Outcome(s, Err(BadRequest(UnknownRole)))
    else if SetsNullText(u) then Outcome(s, Err(ServerError(NullColumn)))
    else
      var s' := s.(employees := s.employees[id := Apply(s.employees[id], u)]);
      Outcome(s', View(s', id))
  }

  /** DELETE /employees/{employee_id}: the employee's actions are left as they are. */
  function DeleteEmployee(s: Store, id: int): (o: Outcome<string>)
    ensures o.reply.Err? <==> id !in s.employees
    ensures o.reply.Err? ==> o.store == s && o.reply.error == NotFound
    ensures o.reply.Ok? ==>
      && o.reply.value == Deleted
      && o.store.employees.Keys == s.employees.Keys - {id}
      && (forall k | k in o.store.employees :: o.store.employees[k] == s.employees[k])
      && o.store == s.(employees := o.store.employees)
  {
    if id !in s.employees then Outcome(s, Err(NotFound))
    else Outcome(s.(employees := s.employees - {id}), Ok(Deleted))
  }

  /** A created employee is read back with a zero counter and the supplied fields. */
  lemma CreateThenGet(s: Store, req: EmployeeCreate)
    requires req.otdelId in s.otdels && req.postId in s.posts && req.roleId in s.roles
    ensures var o := CreateEmployee(s, req);
      && o.reply.Ok?
      && var r := GetEmployee(o.store, o.reply.value.employeeId).reply;
      && r.Ok? && r.value.idleHours == 0
      && r.value.surname == req.surname && r.value.login == req.login
      && r.value.nameOtdel == s.otdels[req.otdelId].nameOtdel
  {
  }

  /** No uniqueness check is made on logins: a second employee may share one. */
  lemma LoginNotUnique(s: Store, req: EmployeeCreate, other: int)
    requires other in s.employees && s.employees[other].login == req.login
    requires req.otdelId in s.otdels && req.postId in s.posts && req.roleId in s.roles
    ensures var o := CreateEmployee(s, req);
      && o.reply.Ok?
      && var id := o.reply.value.employeeId;
      && id != other && o.store.employees[id].login == o.store.employees[other].login
  {
  }

  /** Two accepted additions in a row add up: the counter is a plain signed sum. */
  lemma AddHoursTwice(s: Store, id: int, a: int, b: int)
    requires id in s.employees ==> Fits(s.employees[id].idleHours + a) && Fits(s.employees[id].idleHours + a + b)
    ensures AddHours(AddHours(s, id, a).store, id, b).store == AddHours(s, id, a + b).store
  {
    if id in s.employees {
      var e := s.employees[id];
      assert e.(idleHours := e.idleHours + a).(idleHours := e.idleHours + a + b) == e.(idleHours := e.idleHours + a + b);
    }
  }

  /** Adding a delta that the counter can take, and then its negation, restores the store. */
  lemma AddHoursUndo(s: Store, id: int, delta: int)
    requires id in s.employees ==> Fits(s.employees[id].idleHours) && Fits(s.employees[id].idleHours + delta)
    ensures AddHours(AddHours(s, id, delta).store, id, -delta).store == s
  {
    AddHoursTwice(s, id, delta, -delta);
    if id in s.employees {
      assert s.employees[id := s.employees[id]] == s.employees;
    }
  }

  /** Adding -5 hours to an employee with 10 leaves 5. */
  lemma AddNegativeHours(s: Store, id: int)
    requires id in s.employees && s.employees[id].idleHours == 10
    ensures AddHours(s, id, -5).store.employees[id].idleHours == 5
  {
  }

  /** A counter at the top of the INTEGER range cannot take one more hour: 500, nothing written. */
  lemma AddHoursOverflowWritesNothing(s: Store, id: int)
    requires id in s.employees && s.employees[id].idleHours == MaxInteger
    ensures AddHours(s, id, 1) == Outcome(s, Err(ServerError(OutOfRange)))
  {
  }

  /**
   * When the employee's department row is gone, adding hours answers 500 but
   * the new counter is already committed.
   */
  lemma AddHoursCommitsBeforeReply(s: Store, id: int, delta: int)
    requires id in s.employees && s.employees[id].otdelId !in s.otdels
    requires Fits(s.employees[id].idleHours + delta)
    ensures var o := AddHours(s, id, delta);
      && o.reply == Err(ServerError(DanglingReference))
      && o.store.employees[id].idleHours == s.employees[id].idleHours + delta
  {
  }

  /** No partial update, accepted or not, changes any employee's idle hours. */
  lemma UpdateKeepsIdleHours(s: Store, id: int, u: EmployeeUpdate)
    ensures SameIdleHours(s, UpdateEmployee(s, id, u).store)
  {
  }

  /** An update that provides no field writes nothing. */
  lemma EmptyUpdateChangesNothing(s: Store, id: int)
    ensures UpdateEmployee(s, id, EmployeeUpdate(Unset, Unset, Unset, Unset, Unset, Unset, Unset, Unset)).store == s
  {
    if id in s.employees {
      assert s.employees[id := s.employees[id]] == s.employees;
    }
  }

  /** Deleting an employee keeps every action that points at it. */
  lemma DeleteKeepsActions(s: Store, id: int)
    requires id in s.employees
    ensures var s1 := DeleteEmployee(s, id).store;
      s1.actions == s.actions && GetEmployee(s1, id).reply == Err(NotFound)
  {
  }
}
