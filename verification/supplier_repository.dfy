/** The Suppliers table: SupplierID is assigned by the store. */
module SupplierRepository {
  import opened Wrappers
  import opened Domain
  import KeyedTable

  type Table = seq<Supplier>

  /** The row as stored when the store assigns it the key `id`. */
  function Assigned(e: Option<Supplier>, id: int): (r: Option<Supplier>)
    ensures r.Some? <==> e.Some?
    ensures r.Some? ==> r.value.supplierID == id && r.value.(supplierID := e.value.supplierID) == e.value
  {
    match e
    case None => None
    case Some(x) => Some(x.(supplierID := id))
  }

  /** List-all: every stored row, in store order; each of them is what
      get-by-key returns for its own id. */
  function GetAll(t: Table): (r: seq<Supplier>)
    ensures r == t
    ensures KeyedTable.Unique(t, SupplierKey) ==>
      forall i :: 0 <= i < |r| ==> GetById(t, Some(r[i].supplierID)) == Some(r[i])
  {
    KeyedTable.LookupEveryRow(t, SupplierKey);
    t
  }

  function GetById(t: Table, id: Option<int>): (r: Option<Supplier>)
    ensures KeyedTable.IsLookup(t, SupplierKey, id, r)
  {
    KeyedTable.Get(t, SupplierKey, id)
  }

  /** Add: a null row throws; otherwise the row, with the key the store
      assigns (`newId`), is appended and returned. */
  function Add(t: Table, e: Option<Supplier>, newId: int): (r: Result<(Supplier, Table), KeyedTable.RepoError>)
    ensures KeyedTable.IsInsert(t, SupplierKey, Assigned(e, newId), r)
    ensures e.None? ==> r == Failure(KeyedTable.NullArgument)
    ensures r.Success? ==> GetById(r.value.1, Some(newId)) == Some(r.value.0)
    ensures r.Success? && KeyedTable.Unique(t, SupplierKey) ==> KeyedTable.Unique(r.value.1, SupplierKey)
  {
    KeyedTable.Insert(t, SupplierKey, Assigned(e, newId))
  }

  /** The assignments of an edit: CompanyName through HomePage, the eleven non-key
      columns, are taken from the argument and SupplierID stays. That is every
      column, so on a row with the argument's key the result is the argument. */
  function Copy(found: Supplier, e: Supplier): (r: Supplier)
    ensures r.supplierID == found.supplierID
    ensures found.supplierID == e.supplierID ==> r == e
  {
    found.(companyName := e.companyName, contactName := e.contactName,
      contactTitle := e.contactTitle, address := e.address, city := e.city, region := e.region,
      postalCode := e.postalCode, country := e.country, phone := e.phone, fax := e.fax,
      homePage := e.homePage)
  }

  /** Edit: null and no change for an absent id; otherwise the found row takes
      the argument's columns and is returned. */
  function Edit(t: Table, e: Supplier): (r: (Option<Supplier>, Table))
    ensures KeyedTable.IsReplace(t, SupplierKey, e, r)
    ensures KeyedTable.Unique(t, SupplierKey) ==> KeyedTable.Unique(r.1, SupplierKey)
  {
    var r := KeyedTable.Update(t, SupplierKey, e, Copy);
    KeyedTable.ReplacePreservesUnique(t, SupplierKey, e, r);
    r
  }

  /** Delete: false and no change for an absent id; otherwise the row is
      removed, true is returned and a later get-by-key finds nothing. */
  function Delete(t: Table, id: Option<int>): (r: (bool, Table))
    ensures KeyedTable.IsRemove(t, SupplierKey, id, r)
    ensures r.0 && KeyedTable.Unique(t, SupplierKey) ==> GetById(r.1, id) == None
  {
    KeyedTable.Remove(t, SupplierKey, id)
  }
}
