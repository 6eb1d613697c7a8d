/**
 * The action endpoints (app/api/action.py). Creating an action inserts the row
 * and adds its hours to the employee's idle-hour counter in one commit. The
 * employee check, the action-type check and the date parsing all happen before
 * anything is written, inside `try ... except Exception`: any of them failing
 * rolls back and answers 500. Deleting an action does not take its hours back.
 */
module ActionApi {
  import opened Wrappers
  import opened Models
  import opened Api
  import opened Tables
  import Dates

  /** The body of POST /actions/create; the date is text in `%Y-%m-%d` form. */
  datatype ActionCreate = ActionCreate(hours: int, dateAction: string, employeeId: int, actiontypeId: int)

  datatype ActionResponse = ActionResponse(actionId: int, hours: int, dateAction: Date, employeeId: int, actiontypeId: int)

  /** The body of the message for a successful delete. */
  const Deleted: string := "Действие успешно удалено"

  function ResponseOf(id: int, a: Action): ActionResponse {
    ActionResponse(id, a.hours, a.dateAction, a.employeeId, a.actiontypeId)
  }

  /**
   * True iff creating the action gets past every check and its commit: the
   * employee and the action type exist, the date parses, and both the hours
   * and the raised counter fit an INTEGER column.
   */
  predicate Accepted(s: Store, req: ActionCreate) {
    && req.employeeId in s.employees && req.actiontypeId in s.actionTypes
    && Dates.Parse(req.dateAction).Some?
    && Fits(req.hours) && Fits(s.employees[req.employeeId].idleHours + req.hours)
  }

  /** POST /actions/create */
  function CreateAction(s: Store, req: ActionCreate): (o: Outcome<ActionResponse>)
    ensures req.employeeId !in s.employees ==> o == Outcome(s, Err(ServerError(UnknownEmployee)))
    ensures req.employeeId in s.employees && req.actiontypeId !in s.actionTypes ==>
      o == Outcome(s, Err(ServerError(UnknownActionType)))
    ensures req.employeeId in s.employees && req.actiontypeId in s.actionTypes && Dates.Parse(req.dateAction).None? ==>
      o == Outcome(s, Err(ServerError(MalformedDate)))
    ensures req.employeeId in s.employees && req.actiontypeId in s.actionTypes && Dates.Parse(req.dateAction).Some?
            && !(Fits(req.hours) && Fits(s.employees[req.employeeId].idleHours + req.hours)) ==>
      o == Outcome(s, Err(ServerError(OutOfRange)))
    ensures o.reply.Err? ==> o.store == s
    ensures o.reply.Ok? <==> Accepted(s, req)
    ensures o.reply.Ok? ==>
      var id := o.reply.value.actionId;
      var e := s.employees[req.employeeId];
      && id !in s.actions
      && o.reply.value.dateAction == Dates.Parse(req.dateAction).value
      && o.store.actions == s.actions[id := Action(req.hours, o.reply.value.dateAction, req.employeeId, req.actiontypeId)]
      && o.store.employees == s.employees[req.employeeId := e.(idleHours := e.idleHours + req.hours)]
      && o.store == s.(actions := o.store.actions, employees := o.store.employees)
      && o.reply.value == ResponseOf(id, o.store.actions[id])
  {
    if req.employeeId !in s.employees then Outcome(s, Err(ServerError(UnknownEmployee)))
    else if req.actiontypeId !in s.actionTypes then Outcome(s, Err(ServerError(UnknownActionType)))
    else
      match Dates.Parse(req.dateAction)
      case None => Outcome(s, Err(ServerError(MalformedDate)))
      case Some(date) =>
        var e := s.employees[req.employeeId];
        if !Fits(req.hours) || !Fits(e.idleHours + req.hours) then Outcome(s, Err(ServerError(OutOfRange)))
        else
          var id := NextId(s.actions);
          var action := Action(req.hours, date, req.employeeId, req.actiontypeId);
          var s' := s.(actions := s.actions[id := action],
                       employees := s.employees[req.employeeId := e.(idleHours := e.idleHours + req.hours)]);
          Outcome(s', Ok(ResponseOf(id, action)))
  }

  /** The reply rows of an action listing, one per table row, in the same order. */
  function Responses(rows: seq<(int, Action)>): (rs: seq<ActionResponse>)
    ensures |rs| == |rows|
    ensures forall i | 0 <= i < |rows| :: rs[i] == ResponseOf(rows[i].0, rows[i].1)
  {
    if rows == [] then [] else [ResponseOf(rows[0].0, rows[0].1)] + Responses(rows[1..])
  }

  /** GET /actions/all: every action, in ascending id order, without joins. */
  function GetAllActions(s: Store): (o: Outcome<seq<ActionResponse>>)
    ensures o.store == s && o.reply.Ok?
    ensures var rs := o.reply.value;
      && |rs| == |s.actions|
      && (forall i | 0 <= i < |rs| :: rs[i].actionId in s.actions && ResponseOf(rs[i].actionId, s.actions[rs[i].actionId]) == rs[i])
      && (forall id | id in s.actions :: exists i | 0 <= i < |rs| :: rs[i].actionId == id)
      && (forall i, j | 0 <= i < j < |rs| :: rs[i].actionId < rs[j].actionId)
  {
    var rows := Rows(s.actions);
    var rs := Responses(rows);
    forall i | 0 <= i < |rs|
      ensures rs[i].actionId == rows[i].0 && rs[i].actionId in s.actions
      ensures ResponseOf(rs[i].actionId, s.actions[rs[i].actionId]) == rs[i]
    {
    }
    forall id | id in s.actions
      ensures exists i | 0 <= i < |rs| :: rs[i].actionId == id
    {
      var i :| 0 <= i < |rows| && rows[i].0 == id;
      assert rs[i].actionId == id;
    }
    Outcome(s, Ok(rs))
  }

  /** GET /actions/{action_id} */
  function GetAction(s: Store, id: int): (o: Outcome<ActionResponse>)
    ensures o.store == s
    ensures o.reply.Err? <==> id !in s.actions
    ensures o.reply.Err? ==> o.reply.error == NotFound
    ensures o.reply.Ok? ==> o.reply.value == ResponseOf(id, s.actions[id])
  {
    if id !in s.actions then Outcome(s, Err(NotFound))
    else Outcome(s, Ok(ResponseOf(id, s.actions[id])))
  }

  /** DELETE /actions/{action_id}: only the action row goes; no counter changes. */
  function DeleteAction(s: Store, id: int): (o: Outcome<string>)
    ensures o.reply.Err? <==> id !in s.actions
    ensures o.reply.Err? ==> o.store == s && o.reply.error == NotFound
    ensures o.reply.Ok? ==>
      && o.reply.value == Deleted
      && o.store.actions.Keys == s.actions.Keys - {id}
      && (forall k | k in o.store.actions :: o.store.actions[k] == s.actions[k])
      && o.store == s.(actions := o.store.actions)
    ensures SameIdleHours(s, o.store)
  {
    if id !in s.actions then Outcome(s, Err(NotFound))
    else Outcome(s.(actions := s.actions - {id}), Ok(Deleted))
  }

  /** A successful creation raises only the referenced employee's counter, by exactly `hours`. */
  lemma CreateRaisesOnlyItsEmployee(s: Store, req: ActionCreate)
    requires CreateAction(s, req).reply.Ok?
    ensures var s1 := CreateAction(s, req).store;
      && s1.employees.Keys == s.employees.Keys
      && s1.employees[req.employeeId].idleHours == s.employees[req.employeeId].idleHours + req.hours
      && (forall id | id in s.employees && id != req.employeeId :: s1.employees[id] == s.employees[id])
      && |s1.actions| == |s.actions| + 1
  {
  }

  /** Creating an action and deleting it leaves its hours on the employee's counter. */
  lemma DeleteDoesNotRefund(s: Store, req: ActionCreate)
    requires CreateAction(s, req).reply.Ok?
    ensures var o := CreateAction(s, req);
      var s2 := DeleteAction(o.store, o.reply.value.actionId).store;
      && s2.actions == s.actions
      && s2.employees[req.employeeId].idleHours == s.employees[req.employeeId].idleHours + req.hours
  {
    var o := CreateAction(s, req);
    assert o.store.actions - {o.reply.value.actionId} == s.actions;
  }

  /** A stored action's date is a representable calendar date. */
  lemma CreatedDateIsValid(s: Store, req: ActionCreate)
    requires CreateAction(s, req).reply.Ok?
    ensures Dates.Valid(CreateAction(s, req).reply.value.dateAction)
  {
  }

  /** A recorded action is read back under the id the reply names, with the parsed date. */
  lemma CreateThenGet(s: Store, req: ActionCreate)
    requires Accepted(s, req)
    ensures var o := CreateAction(s, req);
      && o.reply.Ok?
      && var r := GetAction(o.store, o.reply.value.actionId).reply;
      && r.Ok? && r.value == o.reply.value
      && r.value.hours == req.hours && r.value.employeeId == req.employeeId
      && r.value.dateAction == Dates.Parse(req.dateAction).value
  {
  }

  /** Hours beyond the INTEGER range make the commit fail: 500, nothing written. */
  lemma OverflowingHoursWriteNothing(s: Store, req: ActionCreate)
    requires req.employeeId in s.employees && req.actiontypeId in s.actionTypes
    requires Dates.Parse(req.dateAction).Some? && req.hours == MaxInteger + 1
    ensures CreateAction(s, req) == Outcome(s, Err(ServerError(OutOfRange)))
  {
  }
}
