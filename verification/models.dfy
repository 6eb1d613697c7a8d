/**
 * The relational schema of the overtime service (app/models.py) as immutable
 * records. Every table is a finite map from its integer primary key to the
 * row's remaining columns; a row's key is therefore never stored twice.
 * Every column is declared NOT NULL, so no field is optional. Names carry no
 * uniqueness constraint at the schema level, and the foreign keys of Employee
 * and Action are plain integers: nothing in the schema stops them from
 * pointing at a deleted row.
 */
module Models {

  /** A calendar day, the value of the `date_action` column. */
  datatype Date = Date(year: int, month: int, day: int)

  /** A department (`otdel`). */
  datatype Otdel = Otdel(nameOtdel: string)

  /** A post. It has no other column than its name. */
  datatype Post = Post(namePost: string)

  /** A role, seeded at start-up. */
  datatype Role = Role(nameRole: string)

  /** An employee; `otdelId`, `postId` and `roleId` are foreign keys. */
  datatype Employee = Employee(
    surname: string,
    name: string,
    patronymic: string,
    login: string,
    password: string,
    idleHours: int,
    otdelId: int,
    postId: int,
    roleId: int)

  /** An action type, seeded at start-up. */
  datatype ActionType = ActionType(nameType: string)

  /** A recorded hour adjustment; `employeeId` and `actiontypeId` are foreign keys. */
  datatype Action = Action(hours: int, dateAction: Date, employeeId: int, actiontypeId: int)

  /** The whole database: one map per table, keyed by primary key. */
  datatype Store = Store(
    otdels: map<int, Otdel>,
    posts: map<int, Post>,
    roles: map<int, Role>,
    employees: map<int, Employee>,
    actionTypes: map<int, ActionType>,
    actions: map<int, Action>)

  /** The smallest and largest value of an SQLite INTEGER column. */
  const MinInteger: int := -0x8000_0000_0000_0000
  const MaxInteger: int := 0x7FFF_FFFF_FFFF_FFFF

  /**
   * True iff `x` fits an INTEGER column. The database driver refuses to bind
   * any other Python integer, so a commit that would write one fails.
   */
  predicate Fits(x: int) {
    MinInteger <= x <= MaxInteger
  }

  /** The database right after the schema is created for the first time. */
  const Empty: Store := Store(map[], map[], map[], map[], map[], map[])

  /** True iff the two stores hold the same employee keys with the same idle-hour counters. */
  predicate SameIdleHours(s: Store, s': Store) {
    && s.employees.Keys == s'.employees.Keys
    && forall id | id in s.employees :: s'.employees[id].idleHours == s.employees[id].idleHours
  }
}
