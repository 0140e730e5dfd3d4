/** The departments table: its rows, the primary-key and unique-name
    properties, and the lookups the repositories perform on it. */
module Departments {

  datatype Option<+T> = None | Some(value: T)

  /** One row of `tblDepartments`: `DepartmentId` and `DepartmentName`. */
  datatype Department = Department(id: int, name: string)

  /** The table, as its rows in the order the model keeps them (insertion order). */
  type Table = seq<Department>

  /** `DepartmentId` is the table's primary key. */
  ghost predicate KeysUnique(t: Table) {
    forall i, j :: 0 <= i < j < |t| ==> t[i].id != t[j].id
  }

  /** The business rule the command service guards: no two departments share a name. */
  ghost predicate NamesUnique(t: Table) {
    forall i, j :: 0 <= i < j < |t| ==> t[i].name != t[j].name
  }

  /** Every key in the table is below the identity counter `next`. */
  ghost predicate KeysBelow(t: Table, next: int) {
    forall i :: 0 <= i < |t| ==> t[i].id < next
  }

  /** Some row has the key `id`. */
  ghost predicate HasKey(t: Table, id: int) {
    exists i :: 0 <= i < |t| && t[i].id == id
  }

  /** `departments.Any(d => d.DepartmentName == name)`: walks the rows and
      compares names exactly (ordinal, case-sensitive). */
  function NameTaken(t: Table, name: string): (taken: bool)
    ensures taken <==> exists i :: 0 <= i < |t| && t[i].name == name
    decreases |t|
  {
    t != [] && (t[0].name == name || NameTaken(t[1..], name))
  }

  /** `departments.Any(d => d.DepartmentName == name && d.DepartmentId != id)`:
      the name is held by a row other than the one keyed `id`. */
  function NameTakenByOther(t: Table, name: string, id: int): (taken: bool)
    ensures taken <==> exists i :: 0 <= i < |t| && t[i].name == name && t[i].id != id
    ensures taken ==> NameTaken(t, name)
    decreases |t|
  {
    t != [] && ((t[0].name == name && t[0].id != id) || NameTakenByOther(t[1..], name, id))
  }

  /** Position of the first row keyed `id`, the row `FindAsync(id)` loads. */
  function Find(t: Table, id: int): (r: Option<nat>)
    ensures r.None? <==> !HasKey(t, id)
    ensures r.Some? ==> r.value < |t| && t[r.value].id == id
    ensures r.Some? ==> forall j :: 0 <= j < r.value ==> t[j].id != id
    ensures KeysUnique(t) ==> forall i :: 0 <= i < |t| && t[i].id == id ==> r == Some(i)
  {
    if t == [] then None
    else if t[0].id == id then Some(0)
    else match Find(t[1..], id)
      case None => None
      case Some(k) => Some(k + 1)
  }

  /** The table without the row at position `i`. */
  function RemoveAt(t: Table, i: nat): Table
    requires i < |t|
  {
    t[..i] + t[i + 1..]
  }
}
