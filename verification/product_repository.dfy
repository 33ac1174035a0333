/** The Products table: ProductID is assigned by the store. */
module ProductRepository {
  import opened Wrappers
  import opened Domain
  import KeyedTable

  type Table = seq<Product>

  /** The row as stored when the store assigns it the key `id`. */
  function Assigned(e: Option<Product>, id: int): (r: Option<Product>)
    ensures r.Some? <==> e.Some?
    ensures r.Some? ==> r.value.productID == id && r.value.(productID := e.value.productID) == e.value
  {
    match e
    case None => None
    case Some(x) => Some(x.(productID := id))
  }

  /** List-all: every stored row, in store order; each of them is what
      get-by-key returns for its own id. */
  function GetAll(t: Table): (r: seq<Product>)
    ensures r == t
    ensures KeyedTable.Unique(t, ProductKey) ==>
      forall i :: 0 <= i < |r| ==> GetById(t, Some(r[i].productID)) == Some(r[i])
  {
    KeyedTable.LookupEveryRow(t, ProductKey);
    t
  }

  function GetById(t: Table, id: Option<int>): (r: Option<Product>)
    ensures KeyedTable.IsLookup(t, ProductKey, id, r)
  {
    KeyedTable.Get(t, ProductKey, id)
  }

  /** Add: a null row throws; otherwise the row, with the key the store
      assigns (`newId`), is appended and returned. */
  function Add(t: Table, e: Option<Product>, newId: int): (r: Result<(Product, Table), KeyedTable.RepoError>)
    ensures KeyedTable.IsInsert(t, ProductKey, Assigned(e, newId), r)
    ensures e.None? ==> r == Failure(KeyedTable.NullArgument)
    ensures r.Success? ==> GetById(r.value.1, Some(newId)) == Some(r.value.0)
    ensures r.Success? && KeyedTable.Unique(t, ProductKey) ==> KeyedTable.Unique(r.value.1, ProductKey)
  {
    KeyedTable.Insert(t, ProductKey, Assigned(e, newId))
  }

  /** The assignments of an edit: ProductName through Discontinued, the nine non-key
      columns, are taken from the argument and ProductID stays. That is every
      column, so on a row with the argument's key the result is the argument. */
  function Copy(found: Product, e: Product): (r: Product)
    ensures r.productID == found.productID
    ensures found.productID == e.productID ==> r == e
  {
    found.(productName := e.productName, supplierID := e.supplierID,
      categoryID := e.categoryID, quantityPerUnit := e.quantityPerUnit,
      unitPrice := e.unitPrice, unitsInStock := e.unitsInStock, unitsOnOrder := e.unitsOnOrder,
      reorderLevel := e.reorderLevel, discontinued := e.discontinued)
  }

  /** Edit: null and no change for an absent id; otherwise the found row takes
      the argument's columns and is returned. */
  function Edit(t: Table, e: Product): (r: (Option<Product>, Table))
    ensures KeyedTable.IsReplace(t, ProductKey, e, r)
    ensures KeyedTable.Unique(t, ProductKey) ==> KeyedTable.Unique(r.1, ProductKey)
  {
    var r := KeyedTable.Update(t, ProductKey, e, Copy);
    KeyedTable.ReplacePreservesUnique(t, ProductKey, e, r);
    r
  }

  /** Delete: false and no change for an absent id; otherwise the row is
      removed, true is returned and a later get-by-key finds nothing. */
  function Delete(t: Table, id: Option<int>): (r: (bool, Table))
    ensures KeyedTable.IsRemove(t, ProductKey, id, r)
    ensures r.0 && KeyedTable.Unique(t, ProductKey) ==> GetById(r.1, id) == None
  {
    KeyedTable.Remove(t, ProductKey, id)
  }
}
