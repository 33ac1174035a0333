/** The Employees table: EmployeeID is assigned by the store. */
module EmployeeRepository {
  import opened Wrappers
  import opened Domain
  import KeyedTable

  type Table = seq<Employee>

  /** The row as stored when the store assigns it the key `id`. */
  function Assigned(e: Option<Employee>, id: int): (r: Option<Employee>)
    ensures r.Some? <==> e.Some?
    ensures r.Some? ==> r.value.employeeID == id && r.value.(employeeID := e.value.employeeID) == e.value
  {
    match e
    case None => None
    case Some(x) => Some(x.(employeeID := id))
  }

  /** List-all: every stored row, in store order; each of them is what
      get-by-key returns for its own id. */
  function GetAll(t: Table): (r: seq<Employee>)
    ensures r == t
    ensures KeyedTable.Unique(t, EmployeeKey) ==>
      forall i :: 0 <= i < |r| ==> GetById(t, Some(r[i].employeeID)) == Some(r[i])
  {
    KeyedTable.LookupEveryRow(t, EmployeeKey);
    t
  }

  function GetById(t: Table, id: Option<int>): (r: Option<Employee>)
    ensures KeyedTable.IsLookup(t, EmployeeKey, id, r)
  {
    KeyedTable.Get(t, EmployeeKey, id)
  }

  /** Add: a null row throws; otherwise the row, with the key the store
      assigns (`newId`), is appended and returned. */
  function Add(t: Table, e: Option<Employee>, newId: int): (r: Result<(Employee, Table), KeyedTable.RepoError>)
    ensures KeyedTable.IsInsert(t, EmployeeKey, Assigned(e, newId), r)
    ensures e.None? ==> r == Failure(KeyedTable.NullArgument)
    ensures r.Success? ==> GetById(r.value.1, Some(newId)) == Some(r.value.0)
    ensures r.Success? && KeyedTable.Unique(t, EmployeeKey) ==> KeyedTable.Unique(r.value.1, EmployeeKey)
  {
    KeyedTable.Insert(t, EmployeeKey, Assigned(e, newId))
  }

  /** The assignments of an edit: LastName through Salary, the eighteen non-key
      columns, are taken from the argument and EmployeeID stays. That is every
      column, so on a row with the argument's key the result is the argument. */
  function Copy(found: Employee, e: Employee): (r: Employee)
    ensures r.employeeID == found.employeeID
    ensures found.employeeID == e.employeeID ==> r == e
  {
    found.(lastName := e.lastName, firstName := e.firstName, title := e.title,
      titleOfCourtesy := e.titleOfCourtesy, birthDate := e.birthDate, hireDate := e.hireDate,
      address := e.address, city := e.city, region := e.region, postalCode := e.postalCode,
      country := e.country, homePhone := e.homePhone, extension := e.extension,
      photo := e.photo, notes := e.notes, reportsTo := e.reportsTo, photoPath := e.photoPath,
      salary := e.salary)
  }

  /** Edit: null and no change for an absent id; otherwise the found row takes
      the argument's columns and is returned. */
  function Edit(t: Table, e: Employee): (r: (Option<Employee>, Table))
    ensures KeyedTable.IsReplace(t, EmployeeKey, e, r)
    ensures KeyedTable.Unique(t, EmployeeKey) ==> KeyedTable.Unique(r.1, EmployeeKey)
  {
    var r := KeyedTable.Update(t, EmployeeKey, e, Copy);
    KeyedTable.ReplacePreservesUnique(t, EmployeeKey, e, r);
    r
  }

  /** Delete: false and no change for an absent id; otherwise the row is
      removed, true is returned and a later get-by-key finds nothing. */
  function Delete(t: Table, id: Option<int>): (r: (bool, Table))
    ensures KeyedTable.IsRemove(t, EmployeeKey, id, r)
    ensures r.0 && KeyedTable.Unique(t, EmployeeKey) ==> GetById(r.1, id) == None
  {
    KeyedTable.Remove(t, EmployeeKey, id)
  }
}
