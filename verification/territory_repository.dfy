/** The Territories table: TerritoryID is supplied by the client, and every read
    returns TerritoryDescription with its surrounding white space removed (the stored
    column is fixed-width and padded). Writes store the value as given. */
module TerritoryRepository {
  import opened Wrappers
  import opened Domain
  import Strings
  import KeyedTable

  type Table = seq<Territory>

  /** A row as read: TerritoryDescription trimmed, every other column as stored. */
  function Trimmed(x: Territory): (r: Territory)
    ensures Strings.IsTrimmed(r.territoryDescription)
    ensures Strings.IsStrippedOf(r.territoryDescription, x.territoryDescription)
    ensures r.(territoryDescription := x.territoryDescription) == x
    ensures Strings.IsTrimmed(x.territoryDescription) ==> r == x
  {
    x.(territoryDescription := Strings.Trim(x.territoryDescription))
  }

  /** List-all: every stored row in store order, each one trimmed; a table
      whose TerritoryDescription values are already trimmed reads back unchanged. */
  function GetAll(t: Table): (r: seq<Territory>)
    ensures |r| == |t|
    ensures forall i :: 0 <= i < |t| ==> r[i] == Trimmed(t[i])
    ensures (forall i :: 0 <= i < |t| ==> Strings.IsTrimmed(t[i].territoryDescription)) ==> r == t
    ensures KeyedTable.Unique(t, TerritoryKey) ==>
      forall i :: 0 <= i < |t| ==> GetById(t, Some(t[i].territoryID)) == Some(r[i])
  {
    KeyedTable.LookupEveryRow(t, TerritoryKey);
    seq(|t|, i requires 0 <= i < |t| => Trimmed(t[i]))
  }

  /** Get-by-key: the first row whose stored TerritoryID equals the id, trimmed;
      null for a null or absent id. */
  function GetById(t: Table, id: Option<string>): (r: Option<Territory>)
    ensures KeyedTable.IsLookupThen(t, TerritoryKey, id, Trimmed, r)
    ensures r.Some? ==> Strings.IsTrimmed(r.value.territoryDescription)
  {
    match KeyedTable.Get(t, TerritoryKey, id)
    case None => None
    case Some(x) => Some(Trimmed(x))
  }

  /** Add: a null row throws; a taken key is rejected by the store;
      otherwise the row is appended untrimmed and returned. */
  function Add(t: Table, e: Option<Territory>): (r: Result<(Territory, Table), KeyedTable.RepoError>)
    ensures KeyedTable.IsInsert(t, TerritoryKey, e, r)
    ensures e.None? ==> r == Failure(KeyedTable.NullArgument)
    ensures r.Success? && KeyedTable.Unique(t, TerritoryKey) ==> KeyedTable.Unique(r.value.1, TerritoryKey)
  {
    KeyedTable.Insert(t, TerritoryKey, e)
  }

  /** The assignments of an edit: TerritoryDescription and RegionID, the two non-key columns, are taken
      from the argument and TerritoryID stays, so on a row with the argument's key
      the result is the argument. */
  function Copy(found: Territory, e: Territory): (r: Territory)
    ensures r.territoryID == found.territoryID
    ensures found.territoryID == e.territoryID ==> r == e
  {
    found.(territoryDescription := e.territoryDescription, regionID := e.regionID)
  }

  /** Edit: null and no change for an absent key; otherwise the found row takes
      the argument's columns, untrimmed, and is returned. */
  function Edit(t: Table, e: Territory): (r: (Option<Territory>, Table))
    ensures KeyedTable.IsReplace(t, TerritoryKey, e, r)
    ensures KeyedTable.Unique(t, TerritoryKey) ==> KeyedTable.Unique(r.1, TerritoryKey)
  {
    var r := KeyedTable.Update(t, TerritoryKey, e, Copy);
    KeyedTable.ReplacePreservesUnique(t, TerritoryKey, e, r);
    r
  }

  /** Delete: false and no change for an absent key; otherwise the row is
      removed, true is returned and a later get-by-key finds nothing. */
  function Delete(t: Table, id: Option<string>): (r: (bool, Table))
    ensures KeyedTable.IsRemove(t, TerritoryKey, id, r)
    ensures r.0 && KeyedTable.Unique(t, TerritoryKey) ==> GetById(r.1, id) == None
  {
    KeyedTable.Remove(t, TerritoryKey, id)
  }
}
