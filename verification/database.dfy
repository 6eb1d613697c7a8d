/**
 * Start-up seeding (app/database.py). Each seeding step looks up row 1 of its
 * table and, only when it is missing, inserts rows 1 and 2 and commits. A row 2
 * already present while row 1 is missing makes that insert collide on the
 * primary key, which aborts start-up. `init_db` seeds roles and commits them
 * before it seeds action types. Creating the schema does not touch data, so it
 * is not a step here: a first start begins from the empty store.
 */
module Database {
  import opened Wrappers
  import opened Models
  import opened Api

  const AdminRole: Role := Role("админ")
  const StaffRole: Role := Role("сотрудник")
  const DayOff: ActionType := ActionType("Выходной")
  const Overtime: ActionType := ActionType("Переработка")

  /** `create_default_roles` */
  function SeedRoles(s: Store): (r: Result<Store, Reason>)
    ensures 1 in s.roles ==> r == Ok(s)
    ensures 1 !in s.roles && 2 in s.roles ==> r == Err(DuplicateKey)
    ensures 1 !in s.roles && 2 !in s.roles ==>
      && r.Ok?
      && r.value.roles.Keys == s.roles.Keys + {1, 2}
      && r.value.roles[1] == AdminRole && r.value.roles[2] == StaffRole
      && (forall id | id in s.roles :: r.value.roles[id] == s.roles[id])
      && r.value == s.(roles := r.value.roles)
  {
    if 1 in s.roles then Ok(s)
    else if 2 in s.roles then Err(DuplicateKey)
    else Ok(s.(roles := s.roles[1 := AdminRole][2 := StaffRole]))
  }

  /** `create_defualt_actiontypes` */
  function SeedActionTypes(s: Store): (r: Result<Store, Reason>)
    ensures 1 in s.actionTypes ==> r == Ok(s)
    ensures 1 !in s.actionTypes && 2 in s.actionTypes ==> r == Err(DuplicateKey)
    ensures 1 !in s.actionTypes && 2 !in s.actionTypes ==>
      && r.Ok?
      && r.value.actionTypes.Keys == s.actionTypes.Keys + {1, 2}
      && r.value.actionTypes[1] == DayOff && r.value.actionTypes[2] == Overtime
      && (forall id | id in s.actionTypes :: r.value.actionTypes[id] == s.actionTypes[id])
      && r.value == s.(actionTypes := r.value.actionTypes)
  {
    if 1 in s.actionTypes then Ok(s)
    else if 2 in s.actionTypes then Err(DuplicateKey)
    else Ok(s.(actionTypes := s.actionTypes[1 := DayOff][2 := Overtime]))
  }

  /**
   * `init_db`: the store the service starts with, and whether start-up got
   * through. Roles are committed before action types are seeded, so a failure in
   * the second step keeps the first step's rows.
   */
  function InitDb(s: Store): (o: Outcome<()>)
    ensures SeedRoles(s).Err? ==> o == Outcome(s, Err(ServerError(DuplicateKey)))
    ensures o.reply.Ok? <==> SeedRoles(s).Ok? && SeedActionTypes(SeedRoles(s).value).Ok?
    ensures SeedRoles(s).Ok? && SeedActionTypes(SeedRoles(s).value).Err? ==>
      o == Outcome(SeedRoles(s).value, Err(ServerError(DuplicateKey)))
    ensures o.reply.Ok? ==> o.store == SeedActionTypes(SeedRoles(s).value).value
    ensures o.reply.Ok? ==> 1 in o.store.roles && 1 in o.store.actionTypes
    ensures o.reply.Ok? ==>
      && o.store.otdels == s.otdels && o.store.posts == s.posts
      && o.store.employees == s.employees && o.store.actions == s.actions
  {
    match SeedRoles(s)
    case Err(reason) => Outcome(s, Err(ServerError(reason)))
    case Ok(s1) =>
      match SeedActionTypes(s1)
      case Err(reason) => Outcome(s1, Err(ServerError(reason)))
      case Ok(s2) => Outcome(s2, Ok(()))
  }

  /** Seeding roles twice is seeding them once. */
  lemma SeedRolesIdempotent(s: Store)
    requires SeedRoles(s).Ok?
    ensures SeedRoles(SeedRoles(s).value) == SeedRoles(s)
  {
  }

  /** Role 1 present suppresses seeding even when role 2 is missing. */
  lemma SeedRolesChecksOnlyFirst(s: Store)
    requires 1 in s.roles && 2 !in s.roles
    ensures SeedRoles(s) == Ok(s) && 2 !in SeedRoles(s).value.roles
  {
  }

  /** Seeding action types twice is seeding them once. */
  lemma SeedActionTypesIdempotent(s: Store)
    requires SeedActionTypes(s).Ok?
    ensures SeedActionTypes(SeedActionTypes(s).value) == SeedActionTypes(s)
  {
  }

  /** A first start leaves exactly the two roles and the two action types, and nothing else. */
  lemma FirstStart()
    ensures InitDb(Empty) == Outcome(
      Empty.(roles := map[1 := AdminRole, 2 := StaffRole],
             actionTypes := map[1 := DayOff, 2 := Overtime]),
      Ok(()))
    ensures |InitDb(Empty).store.roles| == 2 && |InitDb(Empty).store.actionTypes| == 2
  {
    var seeded := Empty.(roles := map[1 := AdminRole, 2 := StaffRole],
                         actionTypes := map[1 := DayOff, 2 := Overtime]);
    assert SeedRoles(Empty) == Ok(Empty.(roles := map[1 := AdminRole, 2 := StaffRole]));
    assert map[1 := AdminRole, 2 := StaffRole].Keys == {1, 2};
    assert map[1 := DayOff, 2 := Overtime].Keys == {1, 2};
  }

  /** Restarting the service on a store it has already seeded changes nothing. */
  lemma RestartChangesNothing(s: Store)
    requires InitDb(s).reply.Ok?
    ensures InitDb(InitDb(s).store) == InitDb(s)
  {
  }

  /**
   * With no roles yet and a stray action type 2, start-up fails on the action
   * types but the two roles it committed first stay in the store.
   */
  lemma RolesSurviveActionTypeFailure(s: Store)
    requires 1 !in s.roles && 2 !in s.roles && 1 !in s.actionTypes && 2 in s.actionTypes
    ensures var o := InitDb(s);
      && o.reply == Err(ServerError(DuplicateKey))
      && o.store.roles == s.roles[1 := AdminRole][2 := StaffRole]
      && o.store.actionTypes == s.actionTypes
  {
  }
}
