/** The Region table: RegionID is supplied by the client, and every read
    returns RegionDescription with its surrounding white space removed (the stored
    column is fixed-width and padded). Writes store the value as given. */
module RegionRepository {
  import opened Wrappers
  import opened Domain
  import Strings
  import KeyedTable

  type Table = seq<Region>

  /** A row as read: RegionDescription trimmed, every other column as stored. */
  function Trimmed(x: Region): (r: Region)
    ensures Strings.IsTrimmed(r.regionDescription)
    ensures Strings.IsStrippedOf(r.regionDescription, x.regionDescription)
    ensures r.(regionDescription := x.regionDescription) == x
    ensures Strings.IsTrimmed(x.regionDescription) ==> r == x
  {
    x.(regionDescription := Strings.Trim(x.regionDescription))
  }

  /** List-all: every stored row in store order, each one trimmed; a table
      whose RegionDescription values are already trimmed reads back unchanged. */
  function GetAll(t: Table): (r: seq<Region>)
    ensures |r| == |t|
    ensures forall i :: 0 <= i < |t| ==> r[i] == Trimmed(t[i])
    ensures (forall i :: 0 <= i < |t| ==> Strings.IsTrimmed(t[i].regionDescription)) ==> r == t
    ensures KeyedTable.Unique(t, RegionKey) ==>
      forall i :: 0 <= i < |t| ==> GetById(t, Some(t[i].regionID)) == Some(r[i])
  {
    KeyedTable.LookupEveryRow(t, RegionKey);
    seq(|t|, i requires 0 <= i < |t| => Trimmed(t[i]))
  }

  /** Get-by-key: the first row whose stored RegionID equals the id, trimmed;
      null for a null or absent id. */
  function GetById(t: Table, id: Option<int>): (r: Option<Region>)
    ensures KeyedTable.IsLookupThen(t, RegionKey, id, Trimmed, r)
    ensures r.Some? ==> Strings.IsTrimmed(r.value.regionDescription)
  {
    match KeyedTable.Get(t, RegionKey, id)
    case None => None
    case Some(x) => Some(Trimmed(x))
  }

  /** Add: a null row throws; a taken key is rejected by the store;
      otherwise the row is appended untrimmed and returned. */
  function Add(t: Table, e: Option<Region>): (r: Result<(Region, Table), KeyedTable.RepoError>)
    ensures KeyedTable.IsInsert(t, RegionKey, e, r)
    ensures e.None? ==> r == Failure(KeyedTable.NullArgument)
    ensures r.Success? && KeyedTable.Unique(t, RegionKey) ==> KeyedTable.Unique(r.value.1, RegionKey)
  {
    KeyedTable.Insert(t, RegionKey, e)
  }

  /** The assignments of an edit: RegionDescription, the one non-key column, is taken
      from the argument and RegionID stays, so on a row with the argument's key
      the result is the argument. */
  function Copy(found: Region, e: Region): (r: Region)
    ensures r.regionID == found.regionID
    ensures found.regionID == e.regionID ==> r == e
  {
    found.(regionDescription := e.regionDescription)
  }

  /** Edit: null and no change for an absent key; otherwise the found row takes
      the argument's columns, untrimmed, and is returned. */
  function Edit(t: Table, e: Region): (r: (Option<Region>, Table))
    ensures KeyedTable.IsReplace(t, RegionKey, e, r)
    ensures KeyedTable.Unique(t, RegionKey) ==> KeyedTable.Unique(r.1, RegionKey)
  {
    var r := KeyedTable.Update(t, RegionKey, e, Copy);
    KeyedTable.ReplacePreservesUnique(t, RegionKey, e, r);
    r
  }

  /** Delete: false and no change for an absent key; otherwise the row is
      removed, true is returned and a later get-by-key finds nothing. */
  function Delete(t: Table, id: Option<int>): (r: (bool, Table))
    ensures KeyedTable.IsRemove(t, RegionKey, id, r)
    ensures r.0 && KeyedTable.Unique(t, RegionKey) ==> GetById(r.1, id) == None
  {
    KeyedTable.Remove(t, RegionKey, id)
  }
}
