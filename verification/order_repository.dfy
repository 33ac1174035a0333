/** The Orders table: OrderID is assigned by the store. */
module OrderRepository {
  import opened Wrappers
  import opened Domain
  import KeyedTable

  type Table = seq<Order>

  /** The row as stored when the store assigns it the key `id`. */
  function Assigned(e: Option<Order>, id: int): (r: Option<Order>)
    ensures r.Some? <==> e.Some?
    ensures r.Some? ==> r.value.orderID == id && r.value.(orderID := e.value.orderID) == e.value
  {
    match e
    case None => None
    case Some(x) => Some(x.(orderID := id))
  }

  /** List-all: every stored row, in store order; each of them is what
      get-by-key returns for its own id. */
  function GetAll(t: Table): (r: seq<Order>)
    ensures r == t
    ensures KeyedTable.Unique(t, OrderKey) ==>
      forall i :: 0 <= i < |r| ==> GetById(t, Some(r[i].orderID)) == Some(r[i])
  {
    KeyedTable.LookupEveryRow(t, OrderKey);
    t
  }

  function GetById(t: Table, id: Option<int>): (r: Option<Order>)
    ensures KeyedTable.IsLookup(t, OrderKey, id, r)
  {
    KeyedTable.Get(t, OrderKey, id)
  }

  /** Add: a null row throws; otherwise the row, with the key the store
      assigns (`newId`), is appended and returned. */
  function Add(t: Table, e: Option<Order>, newId: int): (r: Result<(Order, Table), KeyedTable.RepoError>)
    ensures KeyedTable.IsInsert(t, OrderKey, Assigned(e, newId), r)
    ensures e.None? ==> r == Failure(KeyedTable.NullArgument)
    ensures r.Success? ==> GetById(r.value.1, Some(newId)) == Some(r.value.0)
    ensures r.Success? && KeyedTable.Unique(t, OrderKey) ==> KeyedTable.Unique(r.value.1, OrderKey)
  {
    KeyedTable.Insert(t, OrderKey, Assigned(e, newId))
  }

  /** The assignments of an edit: CustomerID through ShipCountry, the twelve non-key
      columns, are taken from the argument and OrderID stays. That is every
      column, so on a row with the argument's key the result is the argument. */
  function Copy(found: Order, e: Order): (r: Order)
    ensures r.orderID == found.orderID
    ensures found.orderID == e.orderID ==> r == e
  {
    found.(customerID := e.customerID, employeeID := e.employeeID, orderDate := e.orderDate,
      requiredDate := e.requiredDate, shipVia := e.shipVia, freight := e.freight,
      shipName := e.shipName, shipAddress := e.shipAddress, shipCity := e.shipCity,
      shipRegion := e.shipRegion, shipPostalCode := e.shipPostalCode,
      shipCountry := e.shipCountry)
  }

  /** Edit: null and no change for an absent id; otherwise the found row takes
      the argument's columns and is returned. */
  function Edit(t: Table, e: Order): (r: (Option<Order>, Table))
    ensures KeyedTable.IsReplace(t, OrderKey, e, r)
    ensures KeyedTable.Unique(t, OrderKey) ==> KeyedTable.Unique(r.1, OrderKey)
  {
    var r := KeyedTable.Update(t, OrderKey, e, Copy);
    KeyedTable.ReplacePreservesUnique(t, OrderKey, e, r);
    r
  }

  /** Delete: false and no change for an absent id; otherwise the row is
      removed, true is returned and a later get-by-key finds nothing. */
  function Delete(t: Table, id: Option<int>): (r: (bool, Table))
    ensures KeyedTable.IsRemove(t, OrderKey, id, r)
    ensures r.0 && KeyedTable.Unique(t, OrderKey) ==> GetById(r.1, id) == None
  {
    KeyedTable.Remove(t, OrderKey, id)
  }
}
