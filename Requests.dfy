/** Sequences of requests against one store: what the queries see after each
    command, and the invariants every command keeps. */
module Requests {
  import opened Departments
  import opened Responses
  import opened Store
  import opened Commands
  import opened Queries

  /** The abstract state of a `DepartmentStore`: its `rows` and its identity
      counter `nextId`. */
  datatype Db = Db(rows: Table, nextId: int)

  /** The store's `Valid()` (a primary key, the counter above every key) for
      this abstract state, together with the unique-name rule. */
  ghost predicate Consistent(db: Db) {
    KeysUnique(db.rows) && KeysBelow(db.rows, db.nextId) && NamesUnique(db.rows)
  }

  /** One command request, as the controller hands it to the command service. */
  datatype Command =
    | Create(request: Department)
    | Update(request: Department)
    | Delete(id: int)

  /** The state one command leaves, under the database behaviour `c`. */
  function Apply(db: Db, cmd: Command, c: Conditions): Db {
    match cmd
    case Create(request) =>
      var s := CreateOutcome(db.rows, db.nextId, request.name, c);
      Db(s.table, if s.reply.statusCode == 200 then db.nextId + 1 else db.nextId)
    case Update(request) =>
      Db(UpdateOutcome(db.rows, request, c).table, db.nextId)
    case Delete(id) =>
      Db(DeleteOutcome(db.rows, id, c).table, db.nextId)
  }

  /** The state a sequence of command requests leaves, each under its own behaviour. */
  function Run(db: Db, trace: seq<(Command, Conditions)>): Db
    decreases |trace|
  {
    if trace == [] then db else Run(Apply(db, trace[0].0, trace[0].1), trace[1..])
  }

  /** Every command keeps the store consistent, whatever it answers. */
  lemma ApplyKeepsConsistent(db: Db, cmd: Command, c: Conditions)
    requires Consistent(db)
    ensures Consistent(Apply(db, cmd, c))
  {
  }

  /** Names stay pairwise distinct (and keys unique) across any sequence of
      creates, updates and deletes, whatever each answers. */
  lemma {:induction false} RunKeepsConsistent(db: Db, trace: seq<(Command, Conditions)>)
    requires Consistent(db)
    ensures Consistent(Run(db, trace))
    decreases |trace|
  {
    if trace != [] {
      ApplyKeepsConsistent(db, trace[0].0, trace[0].1);
      RunKeepsConsistent(Apply(db, trace[0].0, trace[0].1), trace[1..]);
    }
  }

  /** After a successful create, the new department is found under its fresh
      key and listed last. */
  lemma CreateThenQuery(db: Db, name: string, c: Conditions, q: Conditions)
    requires Consistent(db) && !q.getAllFails && !q.getByIdFails
    requires CreateOutcome(db.rows, db.nextId, name, c).reply.statusCode == 200
    ensures var t := CreateOutcome(db.rows, db.nextId, name, c).table;
      && GetDepartmentById(t, db.nextId, q) ==
           JsonResponse(true, 200, "", Row(Department(db.nextId, name)), None)
      && GetAllDepartments(t, q).data == Rows(db.rows + [Department(db.nextId, name)])
  {
    var t := CreateOutcome(db.rows, db.nextId, name, c).table;
    assert t[|db.rows|] == Department(db.nextId, name);
  }

  /** Creating the same name twice: the second create answers 409 and leaves
      the table as the first left it. */
  lemma CreateTwice(db: Db, name: string, c: Conditions, c': Conditions)
    requires !c'.getAllFails
    requires CreateOutcome(db.rows, db.nextId, name, c).reply.statusCode == 200
    ensures var t := CreateOutcome(db.rows, db.nextId, name, c).table;
      && CreateOutcome(t, db.nextId + 1, name, c').reply.statusCode == 409
      && CreateOutcome(t, db.nextId + 1, name, c').table == t
  {
    var t := CreateOutcome(db.rows, db.nextId, name, c).table;
    assert t[|db.rows|].name == name;
  }

  /** After a successful update, the key answers with the new name. */
  lemma UpdateThenQuery(t: Table, request: Department, c: Conditions, q: Conditions)
    requires !q.getByIdFails
    requires UpdateOutcome(t, request, c).reply.Ok?
    requires UpdateOutcome(t, request, c).reply.value.statusCode == 200
    ensures GetDepartmentById(UpdateOutcome(t, request, c).table, request.id, q) ==
      JsonResponse(true, 200, "", Row(request), None)
  {
  }

  /** Renaming a department to the name it already has is not a conflict:
      the key itself is excluded from the name check. */
  lemma UpdateKeepingOwnName(t: Table, i: nat, c: Conditions)
    requires KeysUnique(t) && NamesUnique(t) && i < |t|
    requires !c.getByIdFails && !c.getAllFails && c.save.Saved?
    ensures UpdateOutcome(t, t[i], c).reply ==
      Ok(JsonResponse(true, 200, "Department updated successfully", Count(c.save.affected), None))
    ensures UpdateOutcome(t, t[i], c).table == t
  {
  }

  /** After a delete that returns, the key is gone: the query answers 404. */
  lemma DeleteThenQuery(t: Table, id: int, c: Conditions, q: Conditions)
    requires KeysUnique(t) && !q.getByIdFails
    requires DeleteOutcome(t, id, c).reply.Ok?
    ensures GetDepartmentById(DeleteOutcome(t, id, c).table, id, q) ==
      JsonResponse(true, 404, NotFoundMessage, Null, None)
  {
  }
}
