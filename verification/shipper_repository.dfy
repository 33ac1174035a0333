/** The Shippers table: ShipperID is assigned by the store. */
module ShipperRepository {
  import opened Wrappers
  import opened Domain
  import KeyedTable

  type Table = seq<Shipper>

  /** The row as stored when the store assigns it the key `id`. */
  function Assigned(e: Option<Shipper>, id: int): (r: Option<Shipper>)
    ensures r.Some? <==> e.Some?
    ensures r.Some? ==> r.value.shipperID == id && r.value.(shipperID := e.value.shipperID) == e.value
  {
    match e
    case None => None
    case Some(x) => Some(x.(shipperID := id))
  }

  /** List-all: every stored row, in store order; each of them is what
      get-by-key returns for its own id. */
  function GetAll(t: Table): (r: seq<Shipper>)
    ensures r == t
    ensures KeyedTable.Unique(t, ShipperKey) ==>
      forall i :: 0 <= i < |r| ==> GetById(t, Some(r[i].shipperID)) == Some(r[i])
  {
    KeyedTable.LookupEveryRow(t, ShipperKey);
    t
  }

  function GetById(t: Table, id: Option<int>): (r: Option<Shipper>)
    ensures KeyedTable.IsLookup(t, ShipperKey, id, r)
  {
    KeyedTable.Get(t, ShipperKey, id)
  }

  /** Add: a null row throws; otherwise the row, with the key the store
      assigns (`newId`), is appended and returned. */
  function Add(t: Table, e: Option<Shipper>, newId: int): (r: Result<(Shipper, Table), KeyedTable.RepoError>)
    ensures KeyedTable.IsInsert(t, ShipperKey, Assigned(e, newId), r)
    ensures e.None? ==> r == Failure(KeyedTable.NullArgument)
    ensures r.Success? ==> GetById(r.value.1, Some(newId)) == Some(r.value.0)
    ensures r.Success? && KeyedTable.Unique(t, ShipperKey) ==> KeyedTable.Unique(r.value.1, ShipperKey)
  {
    KeyedTable.Insert(t, ShipperKey, Assigned(e, newId))
  }

  /** The assignments of an edit: CompanyName and Phone, the two non-key
      columns, are taken from the argument and ShipperID stays. That is every
      column, so on a row with the argument's key the result is the argument. */
  function Copy(found: Shipper, e: Shipper): (r: Shipper)
    ensures r.shipperID == found.shipperID
    ensures found.shipperID == e.shipperID ==> r == e
  {
    found.(companyName := e.companyName, phone := e.phone)
  }

  /** Edit: null and no change for an absent id; otherwise the found row takes
      the argument's columns and is returned. */
  function Edit(t: Table, e: Shipper): (r: (Option<Shipper>, Table))
    ensures KeyedTable.IsReplace(t, ShipperKey, e, r)
    ensures KeyedTable.Unique(t, ShipperKey) ==> KeyedTable.Unique(r.1, ShipperKey)
  {
    var r := KeyedTable.Update(t, ShipperKey, e, Copy);
    KeyedTable.ReplacePreservesUnique(t, ShipperKey, e, r);
    r
  }

  /** Delete: false and no change for an absent id; otherwise the row is
      removed, true is returned and a later get-by-key finds nothing. */
  function Delete(t: Table, id: Option<int>): (r: (bool, Table))
    ensures KeyedTable.IsRemove(t, ShipperKey, id, r)
    ensures r.0 && KeyedTable.Unique(t, ShipperKey) ==> GetById(r.1, id) == None
  {
    KeyedTable.Remove(t, ShipperKey, id)
  }
}
