/**
 * The service as a whole: every state-changing request of the API, applied one
 * after another to the same store. The properties here span many requests:
 * the idle-hour counter of an employee is exactly the sum of what was credited
 * to it, and every allocated key stays positive.
 */
module Service {
  import opened Models
  import opened Api
  import OtdelApi
  import PostApi
  import EmployeeApi
  import ActionApi
  import Tables
  import Database
  import Dates

  /** A request that may change the store. Reads never do (their contracts keep the store). */
  datatype Request =
    | CreateOtdel(nameOtdel: string)
    | UpdateOtdel(otdelId: int, nameOtdel: string)
    | DeleteOtdel(otdelId: int)
    | CreatePost(namePost: string)
    | UpdatePost(postId: int, namePost: string)
    | DeletePost(postId: int)
    | CreateEmployee(create: EmployeeApi.EmployeeCreate)
    | AddHours(employeeId: int, delta: int)
    | UpdateEmployee(employeeId: int, update: EmployeeApi.EmployeeUpdate)
    | DeleteEmployee(employeeId: int)
    | CreateAction(action: ActionApi.ActionCreate)
    | DeleteAction(actionId: int)

  /** The store after one request, whatever its reply. */
  function Step(s: Store, req: Request): Store {
    match req
    case CreateOtdel(n) => OtdelApi.CreateOtdel(s, n).store
    case UpdateOtdel(id, n) => OtdelApi.UpdateOtdel(s, id, n).store
    case DeleteOtdel(id) => OtdelApi.DeleteOtdel(s, id).store
    case CreatePost(n) => PostApi.CreatePost(s, n).store
    case UpdatePost(id, n) => PostApi.UpdatePost(s, id, n).store
    case DeletePost(id) => PostApi.DeletePost(s, id).store
    case CreateEmployee(c) => EmployeeApi.CreateEmployee(s, c).store
    case AddHours(id, d) => EmployeeApi.AddHours(s, id, d).store
    case UpdateEmployee(id, u) => EmployeeApi.UpdateEmployee(s, id, u).store
    case DeleteEmployee(id) => EmployeeApi.DeleteEmployee(s, id).store
    case CreateAction(a) => ActionApi.CreateAction(s, a).store
    case DeleteAction(id) => ActionApi.DeleteAction(s, id).store
  }

  /** The store after a sequence of requests. */
  function Run(s: Store, reqs: seq<Request>): Store
    decreases |reqs|
  {
    if reqs == [] then s else Run(Step(s, reqs[0]), reqs[1..])
  }

  /**
   * The hours a request credits to employee `e` in store `s`, read off the
   * request and the handlers' checks alone: a recorded action for `e` that
   * passes every check, or a direct adjustment of `e` whose new counter fits an
   * INTEGER column.
   */
  function Credit(s: Store, req: Request, e: int): int {
    match req
    case CreateAction(a) => if a.employeeId == e && ActionApi.Accepted(s, a) then a.hours else 0
    case AddHours(id, d) => if id == e && e in s.employees && Fits(s.employees[e].idleHours + d) then d else 0
    case _ => 0
  }

  /** Everything credited to `e` over a sequence of requests. */
  function Ledger(s: Store, reqs: seq<Request>, e: int): int
    decreases |reqs|
  {
    if reqs == [] then 0 else Credit(s, reqs[0], e) + Ledger(Step(s, reqs[0]), reqs[1..], e)
  }

  /** True iff the requests never delete employee `e`. */
  predicate Keeps(reqs: seq<Request>, e: int) {
    forall i | 0 <= i < |reqs| :: reqs[i] != DeleteEmployee(e)
  }

  function IdleHours(s: Store, e: int): int
    requires e in s.employees
  {
    s.employees[e].idleHours
  }

  /** True iff the request touches only the department and post tables. */
  predicate Catalog(req: Request) {
    req.CreateOtdel? || req.UpdateOtdel? || req.DeleteOtdel? || req.CreatePost? || req.UpdatePost? || req.DeletePost?
  }

  /** Department and post requests never touch the employees. */
  lemma CatalogKeepsEmployees(s: Store, req: Request)
    requires Catalog(req)
    ensures Step(s, req).employees == s.employees
  {
    match req
    case CreateOtdel(n) =>
    case UpdateOtdel(id, n) =>
    case DeleteOtdel(id) =>
    case CreatePost(n) =>
    case UpdatePost(id, n) =>
    case DeletePost(id) =>
  }

  /** Employee requests other than deleting `e` move its counter by exactly their credit. */
  lemma EmployeeStepCredit(s: Store, req: Request, e: int)
    requires e in s.employees && req != DeleteEmployee(e)
    requires req.CreateEmployee? || req.AddHours? || req.DeleteEmployee?
    ensures e in Step(s, req).employees
    ensures IdleHours(Step(s, req), e) == IdleHours(s, e) + Credit(s, req, e)
  {
    match req
    case CreateEmployee(c) =>
      assert Step(s, req) == EmployeeApi.CreateEmployee(s, c).store;
    case AddHours(id, d) =>
      assert Step(s, req) == EmployeeApi.AddHours(s, id, d).store;
    case DeleteEmployee(id) =>
      assert Step(s, req) == EmployeeApi.DeleteEmployee(s, id).store;
  }

  /** A partial update never moves a counter, even that of the employee it edits. */
  lemma UpdateStepCredit(s: Store, id: int, u: EmployeeApi.EmployeeUpdate, e: int)
    requires e in s.employees
    ensures e in Step(s, UpdateEmployee(id, u)).employees
    ensures IdleHours(Step(s, UpdateEmployee(id, u)), e) == IdleHours(s, e)
  {
    EmployeeApi.UpdateKeepsIdleHours(s, id, u);
  }

  /** Action requests move an existing employee's counter by exactly their credit. */
  lemma ActionStepCredit(s: Store, req: Request, e: int)
    requires e in s.employees && (req.CreateAction? || req.DeleteAction?)
    ensures e in Step(s, req).employees
    ensures IdleHours(Step(s, req), e) == IdleHours(s, e) + Credit(s, req, e)
  {
    match req
    case CreateAction(a) =>
    case DeleteAction(id) =>
  }

  /** One request moves an existing employee's counter by exactly its credit. */
  lemma StepCredit(s: Store, req: Request, e: int)
    requires e in s.employees && req != DeleteEmployee(e)
    ensures e in Step(s, req).employees
    ensures IdleHours(Step(s, req), e) == IdleHours(s, e) + Credit(s, req, e)
  {
    if Catalog(req) {
      CatalogKeepsEmployees(s, req);
    } else if req.CreateAction? || req.DeleteAction? {
      ActionStepCredit(s, req, e);
    } else if req.UpdateEmployee? {
      UpdateStepCredit(s, req.employeeId, req.update, e);
    } else {
      EmployeeStepCredit(s, req, e);
    }
  }

  /**
   * The idle-hour counter of an employee that is never deleted equals its
   * starting value plus everything credited to it: editing the employee,
   * deleting an action and every other request leave it alone.
   */
  lemma {:induction false} CounterMatchesLedger(s: Store, reqs: seq<Request>, e: int)
    requires e in s.employees && Keeps(reqs, e)
    ensures e in Run(s, reqs).employees
    ensures IdleHours(Run(s, reqs), e) == IdleHours(s, e) + Ledger(s, reqs, e)
    decreases |reqs|
  {
    if reqs != [] {
      StepCredit(s, reqs[0], e);
      assert Keeps(reqs[1..], e) by {
        forall i | 0 <= i < |reqs[1..]|
          ensures reqs[1..][i] != DeleteEmployee(e)
        {
          assert reqs[1..][i] == reqs[i + 1];
        }
      }
      CounterMatchesLedger(Step(s, reqs[0]), reqs[1..], e);
    }
  }

  /**
   * Deleting the employee with the largest id, when the id below it is taken,
   * and creating another hands the new employee the same id, so the old
   * employee's actions now point at the newcomer.
   */
  lemma DeletedIdIsReused(s: Store, c: EmployeeApi.EmployeeCreate, actionId: int)
    requires s.employees.Keys != {} && c.otdelId in s.otdels && c.postId in s.posts && c.roleId in s.roles
    requires Tables.Largest(s.employees.Keys) - 1 in s.employees
    requires actionId in s.actions && s.actions[actionId].employeeId == Tables.Largest(s.employees.Keys)
    ensures var e := Tables.Largest(s.employees.Keys);
            var s1 := EmployeeApi.DeleteEmployee(s, e).store;
            var o := EmployeeApi.CreateEmployee(s1, c);
            && o.reply.Ok? && o.reply.value.employeeId == e
            && o.store.actions[actionId].employeeId == e
            && o.store.employees[e].idleHours == 0
  {
    var e := Tables.Largest(s.employees.Keys);
    var s1 := EmployeeApi.DeleteEmployee(s, e).store;
    assert e - 1 in s1.employees;
    Tables.NextIdFollowsLargest(s1.employees, e - 1);
  }

  /** True iff every key of every table is positive, as SQLite row ids are. */
  predicate PositiveKeys(s: Store) {
    && Positive(s.otdels) && Positive(s.posts) && Positive(s.roles)
    && Positive(s.employees) && Positive(s.actionTypes) && Positive(s.actions)
  }

  predicate Positive<T>(m: map<int, T>) {
    forall k | k in m :: k > 0
  }

  /** No request introduces a key that is not positive. */
  lemma StepPositive(s: Store, req: Request)
    requires PositiveKeys(s)
    ensures PositiveKeys(Step(s, req))
  {
    if Catalog(req) {
      CatalogPositive(s, req);
    } else {
      PeoplePositive(s, req);
    }
  }

  /** Department and post requests keep every key positive. */
  lemma CatalogPositive(s: Store, req: Request)
    requires PositiveKeys(s) && Catalog(req)
    ensures PositiveKeys(Step(s, req))
  {
    match req
    case CreateOtdel(n) => Tables.NextIdPositive(s.otdels);
    case CreatePost(n) => Tables.NextIdPositive(s.posts);
    case _ =>
  }

  /** Employee and action requests keep every key positive. */
  lemma PeoplePositive(s: Store, req: Request)
    requires PositiveKeys(s) && !Catalog(req)
    ensures PositiveKeys(Step(s, req))
  {
    match req
    case CreateEmployee(c) => Tables.NextIdPositive(s.employees);
    case CreateAction(a) => Tables.NextIdPositive(s.actions);
    case _ =>
  }

  /** Every key stays positive over any sequence of requests. */
  lemma {:induction false} RunPositive(s: Store, reqs: seq<Request>)
    requires PositiveKeys(s)
    ensures PositiveKeys(Run(s, reqs))
    decreases |reqs|
  {
    if reqs != [] {
      StepPositive(s, reqs[0]);
      RunPositive(Step(s, reqs[0]), reqs[1..]);
    }
  }

  /** Seeding the roles adds only the keys 1 and 2. */
  lemma SeedRolesPositive(s: Store)
    requires PositiveKeys(s) && Database.SeedRoles(s).Ok?
    ensures PositiveKeys(Database.SeedRoles(s).value)
  {
    var s1 := Database.SeedRoles(s).value;
    if 1 !in s.roles {
      forall k | k in s1.roles
        ensures k > 0
      {
        assert k in s.roles.Keys + {1, 2};
      }
    }
  }

  /** Seeding the action types adds only the keys 1 and 2. */
  lemma SeedActionTypesPositive(s: Store)
    requires PositiveKeys(s) && Database.SeedActionTypes(s).Ok?
    ensures PositiveKeys(Database.SeedActionTypes(s).value)
  {
    var s1 := Database.SeedActionTypes(s).value;
    if 1 !in s.actionTypes {
      forall k | k in s1.actionTypes
        ensures k > 0
      {
        assert k in s.actionTypes.Keys + {1, 2};
      }
    }
  }

  /** Start-up seeds only the keys 1 and 2, so it keeps every key positive. */
  lemma InitDbPositive(s: Store)
    requires PositiveKeys(s)
    ensures PositiveKeys(Database.InitDb(s).store)
  {
    var r := Database.SeedRoles(s);
    if r.Ok? {
      SeedRolesPositive(s);
      if Database.SeedActionTypes(r.value).Ok? {
        SeedActionTypesPositive(r.value);
      }
    }
  }

  /** A service started on an empty database only ever holds positive keys. */
  lemma ServicePositive(reqs: seq<Request>)
    ensures PositiveKeys(Run(Database.InitDb(Empty).store, reqs))
  {
    InitDbPositive(Empty);
    RunPositive(Database.InitDb(Empty).store, reqs);
  }

  /** True iff every stored counter and every action's hours fit an INTEGER column. */
  predicate CountersFit(s: Store) {
    && (forall id | id in s.employees :: Fits(s.employees[id].idleHours))
    && (forall id | id in s.actions :: Fits(s.actions[id].hours))
  }

  /** No request writes an hour count that an INTEGER column cannot hold. */
  lemma StepFits(s: Store, req: Request)
    requires CountersFit(s)
    ensures CountersFit(Step(s, req))
  {
    if Catalog(req) {
      CatalogFits(s, req);
    } else {
      PeopleFits(s, req);
    }
  }

  /** Department and post requests touch neither employees nor actions. */
  lemma CatalogFits(s: Store, req: Request)
    requires CountersFit(s) && Catalog(req)
    ensures CountersFit(Step(s, req))
  {
    CatalogKeepsEmployees(s, req);
    match req
    case CreateOtdel(n) =>
    case UpdateOtdel(id, n) =>
    case DeleteOtdel(id) =>
    case CreatePost(n) =>
    case UpdatePost(id, n) =>
    case DeletePost(id) =>
  }

  /** Employee and action requests only write counters and hours that fit. */
  lemma PeopleFits(s: Store, req: Request)
    requires CountersFit(s) && !Catalog(req)
    ensures CountersFit(Step(s, req))
  {
    match req
    case UpdateEmployee(id, u) => EmployeeApi.UpdateKeepsIdleHours(s, id, u);
    case _ =>
  }

  /** Every counter and every action's hours fit an INTEGER column over any sequence of requests. */
  lemma {:induction false} RunFits(s: Store, reqs: seq<Request>)
    requires CountersFit(s)
    ensures CountersFit(Run(s, reqs))
    decreases |reqs|
  {
    if reqs != [] {
      StepFits(s, reqs[0]);
      RunFits(Step(s, reqs[0]), reqs[1..]);
    }
  }

  /** A service started on an empty database never stores an hour count beyond 64 bits. */
  lemma ServiceFits(reqs: seq<Request>)
    ensures CountersFit(Run(Database.InitDb(Empty).store, reqs))
  {
    RunFits(Database.InitDb(Empty).store, reqs);
  }
}
