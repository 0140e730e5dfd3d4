/** The data-store gateway: the query repository's reads and the command
    repository's writes over the departments table. */
module Store {
  import opened Departments
  import opened Responses

  /** The repositories wrap every read fault in an exception with a fixed message. */
  const GetAllFailure: string := "Error occurred while retrieving the departments."
  const GetByIdFailure: string := "Error occurred while retrieving the department."

  /** What `SaveChanges` does: report a rows-affected count, or throw. */
  datatype SaveOutcome = Saved(affected: int) | SaveFailed(message: string)

  /** How the database behaves during one request: whether each read faults,
      and what the write's `SaveChanges` does. */
  datatype Conditions = Conditions(getAllFails: bool, getByIdFails: bool, save: SaveOutcome)

  /** The departments table with its store-generated identity column. */
  class DepartmentStore {
    var rows: Table
    /** The identity counter: the key the next inserted row receives. */
    var nextId: int

    ghost predicate Valid()
      reads this
    {
      KeysUnique(rows) && KeysBelow(rows, nextId)
    }

    constructor ()
      ensures Valid() && rows == [] && nextId == 1
    {
      rows := [];
      nextId := 1;
    }

    /** `GetAllAsync`: the whole table, in store order. */
    method GetAll(fails: bool) returns (r: Result<Table>)
      ensures fails ==> r == Thrown(GetAllFailure)
      ensures !fails ==> r == Ok(rows)
    {
      if fails {
        return Thrown(GetAllFailure);
      }
      return Ok(rows);
    }

    /** `GetByIdAsync`: the row keyed `id`, or null when there is none. */
    method GetById(id: int, fails: bool) returns (r: Result<Option<Department>>)
      requires Valid()
      ensures fails ==> r == Thrown(GetByIdFailure)
      ensures !fails ==> r.Ok? && (r.value.None? <==> !HasKey(rows, id))
      ensures !fails && r.value.Some? ==> r.value.value in rows && r.value.value.id == id
    {
      if fails {
        return Thrown(GetByIdFailure);
      }
      match Find(rows, id)
      case None =>
        return Ok(None);
      case Some(i) =>
        return Ok(Some(rows[i]));
    }

    /** `CreateAsync`: add the row and save. The key is assigned by the store,
        not taken from `d`. */
    method Create(d: Department, save: SaveOutcome) returns (r: Result<int>)
      requires Valid()
      modifies this
      ensures Valid()
      ensures save.SaveFailed? ==>
        r == Thrown(save.message) && rows == old(rows) && nextId == old(nextId)
      ensures save.Saved? ==>
        && r == Ok(save.affected)
        && rows == old(rows) + [Department(old(nextId), d.name)]
        && nextId == old(nextId) + 1
    {
      match save
      case SaveFailed(m) =>
        return Thrown(m);
      case Saved(n) =>
        rows := rows + [Department(nextId, d.name)];
        nextId := nextId + 1;
        return Ok(n);
    }

    /** `UpdateAsync`: overwrite the row with `d`'s key by `d`, and save. */
    method Update(d: Department, save: SaveOutcome) returns (r: Result<int>)
      requires Valid() && HasKey(rows, d.id)
      modifies this`rows
      ensures Valid()
      ensures save.SaveFailed? ==> r == Thrown(save.message) && rows == old(rows)
      ensures save.Saved? ==>
        r == Ok(save.affected) && rows == old(rows)[Find(old(rows), d.id).value := d]
    {
      match save
      case SaveFailed(m) =>
        return Thrown(m);
      case Saved(n) =>
        var i := Find(rows, d.id).value;
        rows := rows[i := d];
        return Ok(n);
    }

    /** `DeleteAsync`: remove the row with `d`'s key, and save. */
    method Delete(d: Department, save: SaveOutcome) returns (r: Result<int>)
      requires Valid() && HasKey(rows, d.id)
      modifies this`rows
      ensures Valid()
      ensures save.SaveFailed? ==> r == Thrown(save.message) && rows == old(rows)
      ensures save.Saved? ==>
        r == Ok(save.affected) && rows == RemoveAt(old(rows), Find(old(rows), d.id).value)
    {
      match save
      case SaveFailed(m) =>
        return Thrown(m);
      case Saved(n) =>
        var i := Find(rows, d.id).value;
        rows := RemoveAt(rows, i);
        return Ok(n);
    }
  }
}
