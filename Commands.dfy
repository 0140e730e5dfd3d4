/** The department command service: validate against the table, then write.
    `CreateOutcome`, `UpdateOutcome` and `DeleteOutcome` say what one call
    answers and what table it leaves; `DepartmentCommand` performs the calls
    against a `DepartmentStore` and is proved to agree with them. */
module Commands {
  import opened Departments
  import opened Responses
  import opened Store

  /** What one command answers, and the table it leaves behind. */
  datatype Step<+R> = Step(reply: R, table: Table)

  /** `CreateDepartment` for the name `name`, the store handing out `freshId`.
      Every exception is caught into a 500 envelope, still flagged success. */
  function CreateOutcome(t: Table, freshId: int, name: string, c: Conditions): (s: Step<JsonResponse>)
    ensures s.reply.success && s.reply.errors == None
    ensures s.reply.statusCode == 200 || s.reply.statusCode == 409 || s.reply.statusCode == 500
    ensures s.reply.statusCode == 409 <==> !c.getAllFails && NameTaken(t, name)
    ensures s.reply.statusCode == 409 ==> s.reply.message == AlreadyExists(name)
    ensures c.getAllFails ==> s.reply.statusCode == 500 && s.reply.message == GetAllFailure
    ensures !c.getAllFails && !NameTaken(t, name) && c.save.SaveFailed? ==>
      s.reply.statusCode == 500 && s.reply.message == c.save.message
    ensures s.reply.statusCode == 200 <==> !c.getAllFails && !NameTaken(t, name) && c.save.Saved?
    ensures s.reply.statusCode == 200 ==>
      && s.reply.message == "Department created successfully"
      && s.reply.data == Count(c.save.affected)
      && s.table == t + [Department(freshId, name)]
    ensures s.reply.statusCode != 200 ==> s.table == t && s.reply.data == Null
    ensures NamesUnique(t) ==> NamesUnique(s.table)
    ensures KeysUnique(t) && KeysBelow(t, freshId) ==> KeysUnique(s.table)
  {
    if c.getAllFails then
      Step(JsonResponse(true, 500, GetAllFailure, Null, None), t)
    else if NameTaken(t, name) then
      Step(JsonResponse(true, 409, AlreadyExists(name), Null, None), t)
    else match c.save
      case SaveFailed(m) =>
        Step(JsonResponse(true, 500, m, Null, None), t)
      case Saved(n) =>
        Step(JsonResponse(true, 200, "Department created successfully", Count(n), None),
             t + [Department(freshId, name)])
  }

  /** `UpdateDepartment` for `request`: the key to update and its new name.
      Exceptions are rethrown. */
  function UpdateOutcome(t: Table, request: Department, c: Conditions): (s: Step<Result<JsonResponse>>)
    ensures s.reply.Ok? ==> s.reply.value.errors == None
    ensures c.getByIdFails ==> s.reply == Thrown(GetByIdFailure)
    ensures !c.getByIdFails && HasKey(t, request.id) && c.getAllFails ==>
      s.reply == Thrown(GetAllFailure)
    ensures (!c.getByIdFails && HasKey(t, request.id) && !c.getAllFails &&
             !NameTakenByOther(t, request.name, request.id) && c.save.SaveFailed?) ==>
      s.reply == Thrown(c.save.message)
    ensures s.reply == Ok(JsonResponse(false, 404, NotFoundMessage, Null, None)) <==>
      !c.getByIdFails && !HasKey(t, request.id)
    ensures s.reply.Ok? && s.reply.value.statusCode == 409 <==>
      !c.getByIdFails && HasKey(t, request.id) && !c.getAllFails &&
      NameTakenByOther(t, request.name, request.id)
    ensures s.reply.Ok? && s.reply.value.statusCode == 409 ==>
      && s.reply.value.success
      && s.reply.value.message == AlreadyExists(request.name)
      && s.reply.value.data == Null
    ensures s.reply.Ok? && s.reply.value.statusCode == 200 <==>
      !c.getByIdFails && HasKey(t, request.id) && !c.getAllFails &&
      !NameTakenByOther(t, request.name, request.id) && c.save.Saved?
    ensures s.reply.Ok? && s.reply.value.statusCode == 200 ==>
      && s.reply.value.success
      && s.reply.value.message == "Department updated successfully"
      && s.reply.value.data == Count(c.save.affected)
      && |s.table| == |t|
      && s.table[Find(t, request.id).value] == request
      && forall j :: 0 <= j < |t| && j != Find(t, request.id).value ==> s.table[j] == t[j]
    ensures !(s.reply.Ok? && s.reply.value.statusCode == 200) ==> s.table == t
    ensures KeysUnique(t) ==> KeysUnique(s.table)
    ensures KeysUnique(t) && NamesUnique(t) ==> NamesUnique(s.table)
  {
    if c.getByIdFails then
      Step(Thrown(GetByIdFailure), t)
    else match Find(t, request.id)
      case None =>
        Step(Ok(JsonResponse(false, 404, NotFoundMessage, Null, None)), t)
      case Some(i) =>
        if c.getAllFails then
          Step(Thrown(GetAllFailure), t)
        else if NameTakenByOther(t, request.name, request.id) then
          Step(Ok(JsonResponse(true, 409, AlreadyExists(request.name), Null, None)), t)
        else match c.save
          case SaveFailed(m) =>
            Step(Thrown(m), t)
          case Saved(n) =>
            var t' := t[i := t[i].(name := request.name)];
            assert KeysUnique(t) && NamesUnique(t) ==> NamesUnique(t') by {
              if NamesUnique(t) && KeysUnique(t) {
                forall a, b | 0 <= a < b < |t'| ensures t'[a].name != t'[b].name {
                  if a == i || b == i {
                    var o := if a == i then b else a;
                    assert t[o].id != request.id;
                  }
                }
              }
            }
            Step(Ok(JsonResponse(true, 200, "Department updated successfully", Count(n), None)), t')
  }

  /** `DeleteDepartment(id)`: 0 for a missing key, otherwise the repository's
      count. Exceptions are rethrown. */
  function DeleteOutcome(t: Table, id: int, c: Conditions): (s: Step<Result<int>>)
    ensures !c.getByIdFails && !HasKey(t, id) ==> s == Step(Ok(0), t)
    ensures c.getByIdFails ==> s == Step(Thrown(GetByIdFailure), t)
    ensures !c.getByIdFails && HasKey(t, id) ==>
      match c.save
      case SaveFailed(m) => s == Step(Thrown(m), t)
      case Saved(n) =>
        && s.reply == Ok(n)
        && s.table == RemoveAt(t, Find(t, id).value)
    ensures KeysUnique(t) ==> KeysUnique(s.table)
    ensures KeysUnique(t) && s.reply.Ok? ==> !HasKey(s.table, id)
    ensures NamesUnique(t) ==> NamesUnique(s.table)
  {
    if c.getByIdFails then
      Step(Thrown(GetByIdFailure), t)
    else match Find(t, id)
      case None =>
        Step(Ok(0), t)
      case Some(i) =>
        match c.save
        case SaveFailed(m) =>
          Step(Thrown(m), t)
        case Saved(n) =>
          Step(Ok(n), RemoveAt(t, i))
  }

  /** The command service, holding the store its repositories write to. */
  class DepartmentCommand {
    const store: DepartmentStore

    constructor (store: DepartmentStore)
      ensures this.store == store
    {
      this.store := store;
    }

    /** Reject a name already present, otherwise insert a row with a fresh key. */
    method CreateDepartment(request: Department, c: Conditions) returns (r: JsonResponse)
      requires store.Valid()
      modifies store
      ensures store.Valid()
      ensures Step(r, store.rows) == CreateOutcome(old(store.rows), old(store.nextId), request.name, c)
      ensures store.nextId == if r.statusCode == 200 then old(store.nextId) + 1 else old(store.nextId)
    {
      var departments := store.GetAll(c.getAllFails);
      if departments.Thrown? {
        return JsonResponse(true, 500, departments.message, Null, None);
      }
      if NameTaken(departments.value, request.name) {
        return JsonResponse(true, 409, AlreadyExists(request.name), Null, None);
      }
      var entity := Department(request.id, request.name);
      var response := store.Create(entity, c.save);
      if response.Thrown? {
        return JsonResponse(true, 500, response.message, Null, None);
      }
      return JsonResponse(true, 200, "Department created successfully", Count(response.value), None);
    }

    /** Reject a missing key or a name held by another key, otherwise rename. */
    method UpdateDepartment(request: Department, c: Conditions) returns (r: Result<JsonResponse>)
      requires store.Valid()
      modifies store`rows
      ensures store.Valid()
      ensures Step(r, store.rows) == UpdateOutcome(old(store.rows), request, c)
    {
      var department := store.GetById(request.id, c.getByIdFails);
      if department.Thrown? {
        return Thrown(department.message);
      }
      if department.value.None? {
        return Ok(JsonResponse(false, 404, NotFoundMessage, Null, None));
      }
      var departments := store.GetAll(c.getAllFails);
      if departments.Thrown? {
        return Thrown(departments.message);
      }
      if NameTakenByOther(departments.value, request.name, request.id) {
        return Ok(JsonResponse(true, 409, AlreadyExists(request.name), Null, None));
      }
      var entity := department.value.value.(name := request.name);
      var response := store.Update(entity, c.save);
      if response.Thrown? {
        return Thrown(response.message);
      }
      return Ok(JsonResponse(true, 200, "Department updated successfully", Count(response.value), None));
    }

    /** Answer 0 for a missing key, otherwise remove the row. */
    method DeleteDepartment(id: int, c: Conditions) returns (r: Result<int>)
      requires store.Valid()
      modifies store`rows
      ensures store.Valid()
      ensures Step(r, store.rows) == DeleteOutcome(old(store.rows), id, c)
    {
      var department := store.GetById(id, c.getByIdFails);
      if department.Thrown? {
        return Thrown(department.message);
      }
      if department.value.None? {
        return Ok(0);
      }
      var response := store.Delete(department.value.value, c.save);
      return response;
    }
  }
}
