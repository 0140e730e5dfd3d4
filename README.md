# Department commands and queries, modelled in Dafny

This project models the department business rules of the CQRS_Basics web API.
The API keeps one table of departments, `(DepartmentId, DepartmentName)`.

- The **command service** (`DepartmentCommand`) creates, renames and deletes departments.
  Create rejects a name already present. Update rejects a missing key and a name held by
  a different key. Delete answers 0 for a missing key.
- The **query service** (`DepartmentQuery`) lists the table or looks up one key. It answers
  with the response envelope `(success, statusCode, message, data, errors)`.

Files and modules:

- `Departments.dfy`: the row type, the table as a sequence of rows in insertion order, and the
  primary-key and unique-name predicates. It also holds the two `Any` checks of the command
  service and the key lookup `Find`.
- `Responses.dfy`: the envelope `JsonResponse`, its payload, and `Result` (a value, or an
  exception with its message).
- `Store.dfy`: the repositories, as a class `DepartmentStore`. It holds the table and the
  identity counter that hands out keys. Its methods are the reads `GetAll`/`GetById` and
  the writes `Create`/`Update`/`Delete`.
- `Commands.dfy`: `CreateOutcome`, `UpdateOutcome` and `DeleteOutcome` say what each command
  answers and which table it leaves. The class `DepartmentCommand` runs each command step by
  step against a `DepartmentStore`. Its methods are proved equal to those functions.
- `Queries.dfy`: the two queries, as functions of the table.
- `Requests.dfy`: what the queries answer after each command, and the consistency invariant
  (primary key, counter above every key, unique names) kept across any sequence of commands.

Database behaviour is an input. A `Conditions` value says whether `GetAllAsync` faults,
whether `GetByIdAsync` faults, and what `SaveChanges` does: it either reports a rows-affected
count or throws with a message. The count is passed through unchanged. A read fault carries
the fixed message the query repository wraps it in
(MyApp.CQRS/Repositories/DeparmentQueryRepository.cs:39 and :56).

Behaviour kept as the code has it:

- The command methods are declared `Task<int>`, yet create and update return a `JsonResponse`
  (MyApp.CQRS/Commands/DepartmentCommand.cs:39, :47, :71). That code does not type-check as
  written. The model makes create and update answer an envelope and delete answer an integer.
- Create answers `success = true` with status 409 and with status 500
  (DepartmentCommand.cs:47, :62). `GetDepartmentById` answers `success = true` with status 404
  (MyApp.CQRS/Queries/DeparmentQuery.cs:57).
- Only create and the two queries turn a fault into a 500 envelope; update and delete
  rethrow (DepartmentCommand.cs:95-98, :122-125), so they return `Thrown(message)`.
- Delete of a missing key answers the bare integer 0 (DepartmentCommand.cs:114), while every
  other operation answers an envelope.
- The key of a new row comes from the store's identity counter, which starts at 1 and moves
  on only when a row is inserted (see "Left out" for the request's id).

## Model

| member | source | states |
|---|---|---|
| Departments.Find | MyApp.CQRS/Repositories/DeparmentQueryRepository.cs:48-58 | the lookup by key finds a row exactly when some row has the key; the position it returns holds that key, and no earlier row does; under the primary key (MyApp.CQRS/Models/Department.cs:13-15) it is the one row with that key |
| Departments.NameTaken | MyApp.CQRS/Commands/DepartmentCommand.cs:45 | true exactly when some row has the name, compared exactly (ordinal, case-sensitive) |
| Departments.NameTakenByOther | MyApp.CQRS/Commands/DepartmentCommand.cs:85 | true exactly when some row has the name and a key different from the request's; whenever it holds, the name is taken |
| Responses.AlreadyExists | MyApp.CQRS/Commands/DepartmentCommand.cs:47 | the conflict message is `Department '` followed by the requested name, then `' already exists` |
| Store.DepartmentStore.constructor | MyApp.CQRS/Models/Department.cs:11-17 | a new store has an empty table with its identity counter at 1 and is valid |
| Store.DepartmentStore.GetAll | MyApp.CQRS/Repositories/DeparmentQueryRepository.cs:31-41 | answers the whole table (in the model's insertion order), or throws "Error occurred while retrieving the departments." |
| Store.DepartmentStore.GetById | MyApp.CQRS/Repositories/DeparmentQueryRepository.cs:48-58 | answers null exactly when no row has the key, else a row of the table with that key; or throws "Error occurred while retrieving the department." |
| Store.DepartmentStore.Create | MyApp.CQRS/Repositories/DepartmentCommandRepository.cs:31-35 | on save, appends one row with the next identity key and the given name and answers the count; on a failed save the table and counter are unchanged and the exception propagates; the store stays valid |
| Store.DepartmentStore.Update | MyApp.CQRS/Repositories/DepartmentCommandRepository.cs:42-46 | on save, replaces exactly the row with the entity's key and answers the count; on a failed save nothing changes; keys stay unique |
| Store.DepartmentStore.Delete | MyApp.CQRS/Repositories/DepartmentCommandRepository.cs:53-57 | on save, removes exactly the row with the entity's key; on a failed save nothing changes; keys stay unique |
| Commands.CreateOutcome | MyApp.CQRS/Commands/DepartmentCommand.cs:39-64 | 409 exactly when the read succeeds and the name is already present (exact comparison), with the "already exists" message; 500 with the fault's message when the read or the save faults; 200 exactly when the name is absent and the save succeeds, with "Department created successfully", adding exactly one row with the fresh key and that name and carrying the save's count; on every other answer the table is unchanged; success is true on all paths; unique names and, with a fresh key, unique keys are preserved |
| Commands.UpdateOutcome | MyApp.CQRS/Commands/DepartmentCommand.cs:71-99 | 404 "Department does not exist" exactly when the key is missing; 409 exactly when the key exists and another key holds the name, with success, the "already exists" message and null data; a fault in the lookup, the list or the save is rethrown with its message; 200 exactly when neither holds and the save succeeds, with success and "Department updated successfully", rewriting only the target row's name and keeping every other row; the table is unchanged on every other answer; keys stay unique, and names stay unique given unique keys |
| Commands.DeleteOutcome | MyApp.CQRS/Commands/DepartmentCommand.cs:106-126 | answers 0 and leaves the table unchanged for a missing key; for a present key removes exactly that row and answers the save's count, or rethrows and leaves the table; afterwards the key is absent whenever the call returns; keys and names stay unique |
| Commands.DepartmentCommand.constructor | MyApp.CQRS/Commands/DepartmentCommand.cs:26-32 | the service works on the store it is given |
| Commands.DepartmentCommand.CreateDepartment | MyApp.CQRS/Commands/DepartmentCommand.cs:39-64 | reading, checking and inserting through the store answers and leaves exactly what `CreateOutcome` states; the counter advances only on 200; the store stays valid |
| Commands.DepartmentCommand.UpdateDepartment | MyApp.CQRS/Commands/DepartmentCommand.cs:71-99 | loading by key, checking and saving the renamed entity answers and leaves exactly what `UpdateOutcome` states; the store stays valid |
| Commands.DepartmentCommand.DeleteDepartment | MyApp.CQRS/Commands/DepartmentCommand.cs:106-126 | loading by key and removing the loaded entity answers and leaves exactly what `DeleteOutcome` states; the store stays valid |
| Queries.GetAllDepartments | MyApp.CQRS/Queries/DeparmentQuery.cs:31-43 | 200 with success, empty message and the full table exactly when the read succeeds; otherwise 500 with success false, the fault's message and null data |
| Queries.GetDepartmentById | MyApp.CQRS/Queries/DeparmentQuery.cs:50-66 | 500 exactly when the read faults; 404 "Department does not exist" with success true and null data exactly when no row has the key; 200 with a row of the table carrying that key (the row, under a primary key) otherwise |
| Requests.ApplyKeepsConsistent | MyApp.CQRS/Commands/DepartmentCommand.cs:39-126 | any create, update or delete, whatever it answers, keeps keys unique, the counter above every key and names unique |
| Requests.RunKeepsConsistent | MyApp.CQRS/Commands/DepartmentCommand.cs:39-126 | names stay pairwise distinct, and keys unique, across any sequence of commands |
| Requests.CreateThenQuery | MyApp.CQRS/Commands/DepartmentCommand.cs:51-58 | after a successful create, looking up the fresh key answers 200 with the new department, and the list is the old list plus that department |
| Requests.CreateTwice | MyApp.CQRS/Commands/DepartmentCommand.cs:44-48 | creating the same name a second time answers 409 and leaves the table as the first create left it |
| Requests.UpdateThenQuery | MyApp.CQRS/Commands/DepartmentCommand.cs:90-92 | after a successful update, looking up the key answers 200 with the key and the new name |
| Requests.UpdateKeepingOwnName | MyApp.CQRS/Commands/DepartmentCommand.cs:85-92 | renaming a department to its own current name is not a conflict: it answers 200 and leaves the table unchanged |
| Requests.DeleteThenQuery | MyApp.CQRS/Commands/DepartmentCommand.cs:111-119 | after a delete that returns, looking up the key answers 404 |

## Left out

- Asynchrony (`Task`, `await`) is left out. Each request runs sequentially. The race between two concurrent creates of the same name is not modelled.
- EF Core is not part of this model: `DbSet`, the change tracker, `SaveChanges` and SQL generation. The repositories are modelled as operations on the table. The rows-affected count is an opaque input. A failed save is taken to leave the table unchanged.
- Commands.DepartmentCommand.UpdateDepartment: the entity renamed at DepartmentCommand.cs:90 is, in EF, the tracked object shared with the context. The model renames a copy and hands it to the store, so that aliasing is not modelled.
- The controllers are HTTP glue and are not modelled: DepartmentsController copies the status code to the transport and turns exceptions into 500. Program.cs, MyAppDbContext.cs and SeedData.cs are configuration and are not modelled either.
- SecurityController.cs is not part of this model. Register and login are calls into ASP.NET Identity, password hashing and HMAC-SHA-512 JWT signing, and they read the clock and a random token id.
- `[Required]` validation on the DTOs is enforced by the framework before these services run.
- Store.DepartmentStore.Create: an identity value consumed by a failed insert is not modelled. The counter moves on only when a row is added. Only the freshness of keys matters to the properties above.
- Store.DepartmentStore.Create: a non-zero request id is not modelled; the real insert (SQL Server, identity column at MyApp.CQRS/Models/Department.cs:14) would be refused and create would answer 500; the model keys every insert from the counter.
- Store.DepartmentStore.GetAll: the database returns rows in no promised order (no `OrderBy` at MyApp.CQRS/Repositories/DeparmentQueryRepository.cs:35); the model lists them in insertion order, so `CreateThenQuery`'s "listed last" is a fact about the model.
- Store.DepartmentStore.Create: keys are unbounded; the 32-bit identity running out (create then answers 500) is not modelled.
