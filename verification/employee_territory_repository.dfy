/** The employee-to-territory link table (EmployeeTerritories), keyed by the
    pair (EmployeeID, TerritoryID), which is the whole row. It has no edit. */
module EmployeeTerritoryRepository {
  import opened Wrappers
  import opened Domain
  import KeyedTable

  type Table = seq<EmployeeTerritory>

  /** List-all: every stored link row, unchanged and in store order. */
  function GetAll(t: Table): (r: seq<EmployeeTerritory>)
    ensures r == t
    ensures KeyedTable.Unique(t, EmployeeTerritoryKey) ==>
      forall i :: 0 <= i < |r| ==> GetById(t, Some(r[i].employeeID), Some(r[i].territoryID)) == Some(r[i])
  {
    KeyedTable.LookupEveryRow(t, EmployeeTerritoryKey);
    t
  }

  /** Get-by-key: a row matches only when both its EmployeeID and its
      TerritoryID equal the given ones; a null part matches nothing. */
  function GetById(t: Table, employeeId: Option<int>, territoryId: Option<string>): (r: Option<EmployeeTerritory>)
    ensures KeyedTable.IsLookup(t, EmployeeTerritoryKey, KeyedTable.Both(employeeId, territoryId), r)
    ensures r.Some? ==> r.value == EmployeeTerritory(employeeId.value, territoryId.value)
  {
    KeyedTable.Get(t, EmployeeTerritoryKey, KeyedTable.Both(employeeId, territoryId))
  }

  /** Add: a null row throws; a taken pair is rejected by the store; otherwise
      the row is appended and returned. */
  function Add(t: Table, e: Option<EmployeeTerritory>): (r: Result<(EmployeeTerritory, Table), KeyedTable.RepoError>)
    ensures KeyedTable.IsInsert(t, EmployeeTerritoryKey, e, r)
    ensures e.None? ==> r == Failure(KeyedTable.NullArgument)
    ensures r.Success? ==> GetById(r.value.1, Some(e.value.employeeID), Some(e.value.territoryID)) == Some(e.value)
    ensures r.Success? && KeyedTable.Unique(t, EmployeeTerritoryKey) ==> KeyedTable.Unique(r.value.1, EmployeeTerritoryKey)
  {
    KeyedTable.Insert(t, EmployeeTerritoryKey, e)
  }

  /** Delete: false and no change for an absent pair; otherwise exactly that
      row is removed and true is returned. */
  function Delete(t: Table, employeeId: Option<int>, territoryId: Option<string>): (r: (bool, Table))
    ensures KeyedTable.IsRemove(t, EmployeeTerritoryKey, KeyedTable.Both(employeeId, territoryId), r)
    ensures r.0 && KeyedTable.Unique(t, EmployeeTerritoryKey) ==> GetById(r.1, employeeId, territoryId) == None
  {
    KeyedTable.Remove(t, EmployeeTerritoryKey, KeyedTable.Both(employeeId, territoryId))
  }
}
