/** The department query service: read the table, answer with an envelope.
    Both queries are functions of the table, so neither changes it. */
module Queries {
  import opened Departments
  import opened Responses
  import opened Store

  /** `GetAllDepartments`: the whole table, or 500 when the read faults. */
  function GetAllDepartments(t: Table, c: Conditions): (r: JsonResponse)
    ensures r.errors == None
    ensures r.success <==> r.statusCode == 200
    ensures r.statusCode == 200 <==> !c.getAllFails
    ensures r.statusCode == 200 ==> r.message == "" && r.data == Rows(t)
    ensures r.statusCode != 200 ==>
      r.statusCode == 500 && r.message == GetAllFailure && r.data == Null
  {
    if c.getAllFails then
      JsonResponse(false, 500, GetAllFailure, Null, None)
    else
      JsonResponse(true, 200, "", Rows(t), None)
  }

  /** `GetDepartmentById(id)`: the row keyed `id`; 404 (flagged success) when
      there is none; 500 when the read faults. */
  function GetDepartmentById(t: Table, id: int, c: Conditions): (r: JsonResponse)
    ensures r.errors == None
    ensures !r.success <==> r.statusCode == 500
    ensures r.statusCode == 500 <==> c.getByIdFails
    ensures r.statusCode == 500 ==> r.message == GetByIdFailure && r.data == Null
    ensures r.statusCode == 404 <==> !c.getByIdFails && !HasKey(t, id)
    ensures r.statusCode == 404 ==> r.message == NotFoundMessage && r.data == Null
    ensures r.statusCode == 200 <==> !c.getByIdFails && HasKey(t, id)
    ensures r.statusCode == 200 ==>
      r.message == "" && r.data.Row? && r.data.department in t && r.data.department.id == id
    ensures r.statusCode == 200 && KeysUnique(t) ==>
      forall i :: 0 <= i < |t| && t[i].id == id ==> r.data == Row(t[i])
  {
    if c.getByIdFails then
      JsonResponse(false, 500, GetByIdFailure, Null, None)
    else match Find(t, id)
      case None =>
        JsonResponse(true, 404, NotFoundMessage, Null, None)
      case Some(i) =>
        JsonResponse(true, 200, "", Row(t[i]), None)
  }
}
