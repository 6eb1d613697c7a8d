/**
 * The department endpoints (app/api/otdel.py). Creation looks for a row with
 * the same name inside a `try` block whose `except Exception` rolls back and
 * answers 500, so the duplicate-name 400 reaches the client as a 500. The other
 * handlers have no `try`: their 404s are real 404s.
 */
module OtdelApi {
  import opened Wrappers
  import opened Models
  import opened Api
  import opened Tables

  datatype OtdelResponse = OtdelResponse(otdelId: int, nameOtdel: string)

  /** The body of a successful delete. */
  const Deleted: string := "Отдел успешно удален"

  /** True iff some department is already called `name`. */
  predicate NameTaken(s: Store, name: string) {
    exists id | id in s.otdels :: s.otdels[id].nameOtdel == name
  }

  /** POST /otdels/create */
  function CreateOtdel(s: Store, nameOtdel: string): (o: Outcome<OtdelResponse>)
    ensures o.reply.Err? <==> NameTaken(s, nameOtdel)
    ensures o.reply.Err? ==> o.store == s && o.reply.error == ServerError(DuplicateName)
    ensures o.reply.Ok? ==>
      var id := o.reply.value.otdelId;
      && id !in s.otdels
      && o.reply.value.nameOtdel == nameOtdel
      && o.store.otdels == s.otdels[id := Otdel(nameOtdel)]
      && o.store == s.(otdels := o.store.otdels)
  {
    if NameTaken(s, nameOtdel) then
      Outcome(s, Err(ServerError(DuplicateName)))
    else
      var id := NextId(s.otdels);
      Outcome(s.(otdels := s.otdels[id := Otdel(nameOtdel)]), Ok(OtdelResponse(id, nameOtdel)))
  }

  /** The reply rows of a department listing, one per table row, in the same order. */
  function Responses(rows: seq<(int, Otdel)>): (rs: seq<OtdelResponse>)
    ensures |rs| == |rows|
    ensures forall i | 0 <= i < |rows| :: rs[i] == OtdelResponse(rows[i].0, rows[i].1.nameOtdel)
  {
    if rows == [] then [] else [OtdelResponse(rows[0].0, rows[0].1.nameOtdel)] + Responses(rows[1..])
  }

  /** GET /otdels/all: every department, in ascending id order. */
  function GetAllOtdels(s: Store): (o: Outcome<seq<OtdelResponse>>)
    ensures o.store == s && o.reply.Ok?
    ensures var rs := o.reply.value;
      && |rs| == |s.otdels|
      && (forall i | 0 <= i < |rs| :: rs[i].otdelId in s.otdels && s.otdels[rs[i].otdelId].nameOtdel == rs[i].nameOtdel)
      && (forall id | id in s.otdels :: exists i | 0 <= i < |rs| :: rs[i].otdelId == id)
      && (forall i, j | 0 <= i < j < |rs| :: rs[i].otdelId < rs[j].otdelId)
  {
    var rows := Rows(s.otdels);
    var rs := Responses(rows);
    forall i | 0 <= i < |rs|
      ensures rs[i].otdelId == rows[i].0 && rs[i].otdelId in s.otdels
      ensures s.otdels[rs[i].otdelId].nameOtdel == rs[i].nameOtdel
    {
    }
    forall id | id in s.otdels
      ensures exists i | 0 <= i < |rs| :: rs[i].otdelId == id
    {
      var i :| 0 <= i < |rows| && rows[i].0 == id;
      assert rs[i].otdelId == id;
    }
    Outcome(s, Ok(rs))
  }

  /** GET /otdels/{otdel_id} */
  function GetOtdel(s: Store, otdelId: int): (o: Outcome<OtdelResponse>)
    ensures o.store == s
    ensures o.reply.Err? <==> otdelId !in s.otdels
    ensures o.reply.Err? ==> o.reply.error == NotFound
    ensures o.reply.Ok? ==> o.reply.value == OtdelResponse(otdelId, s.otdels[otdelId].nameOtdel)
  {
    if otdelId !in s.otdels then Outcome(s, Err(NotFound))
    else Outcome(s, Ok(OtdelResponse(otdelId, s.otdels[otdelId].nameOtdel)))
  }

  /** PUT /otdels/{otdel_id}: renames without looking for a clash. */
  function UpdateOtdel(s: Store, otdelId: int, nameOtdel: string): (o: Outcome<OtdelResponse>)
    ensures o.reply.Err? <==> otdelId !in s.otdels
    ensures o.reply.Err? ==> o.store == s && o.reply.error == NotFound
    ensures o.reply.Ok? ==>
      && o.reply.value == OtdelResponse(otdelId, nameOtdel)
      && o.store.otdels.Keys == s.otdels.Keys
      && o.store.otdels[otdelId] == Otdel(nameOtdel)
      && (forall id | id in s.otdels && id != otdelId :: o.store.otdels[id] == s.otdels[id])
      && o.store == s.(otdels := o.store.otdels)
  {
    if otdelId !in s.otdels then Outcome(s, Err(NotFound))
    else Outcome(s.(otdels := s.otdels[otdelId := Otdel(nameOtdel)]), Ok(OtdelResponse(otdelId, nameOtdel)))
  }

  /** DELETE /otdels/{otdel_id}: employees that point at the department are left as they are. */
  function DeleteOtdel(s: Store, otdelId: int): (o: Outcome<string>)
    ensures o.reply.Err? <==> otdelId !in s.otdels
    ensures o.reply.Err? ==> o.store == s && o.reply.error == NotFound
    ensures o.reply.Ok? ==>
      && o.reply.value == Deleted
      && o.store.otdels.Keys == s.otdels.Keys - {otdelId}
      && (forall id | id in o.store.otdels :: o.store.otdels[id] == s.otdels[id])
      && o.store == s.(otdels := o.store.otdels)
  {
    if otdelId !in s.otdels then Outcome(s, Err(NotFound))
    else Outcome(s.(otdels := s.otdels - {otdelId}), Ok(Deleted))
  }

  /** A created department can be read back under the id the reply names. */
  lemma CreateThenGet(s: Store, name: string)
    requires !NameTaken(s, name)
    ensures var o := CreateOtdel(s, name);
      o.reply.Ok? && GetOtdel(o.store, o.reply.value.otdelId).reply == Ok(OtdelResponse(o.reply.value.otdelId, name))
  {
  }

  /** Deleting a department just created gives back the store from before. */
  lemma CreateThenDelete(s: Store, name: string)
    requires !NameTaken(s, name)
    ensures var o := CreateOtdel(s, name);
      o.reply.Ok? && DeleteOtdel(o.store, o.reply.value.otdelId).store == s
  {
    var o := CreateOtdel(s, name);
    var id := o.reply.value.otdelId;
    assert o.store.otdels - {id} == s.otdels;
  }

  /** Creating the same name twice: the second request answers 500 and changes nothing. */
  lemma CreateTwiceFails(s: Store, name: string)
    ensures var s1 := CreateOtdel(s, name).store;
      CreateOtdel(s1, name) == Outcome(s1, Err(ServerError(DuplicateName)))
  {
    var o := CreateOtdel(s, name);
    if o.reply.Ok? {
      assert o.store.otdels[o.reply.value.otdelId].nameOtdel == name;
    }
  }

  /** Renaming a department to another department's name is accepted. */
  lemma UpdateAllowsDuplicateNames(s: Store, a: int, b: int)
    requires a in s.otdels && b in s.otdels && a != b
    ensures var o := UpdateOtdel(s, a, s.otdels[b].nameOtdel);
      o.reply.Ok? && o.store.otdels[a].nameOtdel == o.store.otdels[b].nameOtdel
  {
  }

  /** After a delete the department is gone and its employees still point at it. */
  lemma DeleteThenGet(s: Store, otdelId: int)
    requires otdelId in s.otdels
    ensures var s1 := DeleteOtdel(s, otdelId).store;
      GetOtdel(s1, otdelId).reply == Err(NotFound) && s1.employees == s.employees
  {
  }

  /** A renamed department is read back with its new name; every other department reads as before. */
  lemma UpdateThenGet(s: Store, otdelId: int, nameOtdel: string, other: int)
    requires otdelId in s.otdels && other != otdelId
    ensures var s1 := UpdateOtdel(s, otdelId, nameOtdel).store;
      && GetOtdel(s1, otdelId).reply == Ok(OtdelResponse(otdelId, nameOtdel))
      && GetOtdel(s1, other).reply == GetOtdel(s, other).reply
  {
  }
}
