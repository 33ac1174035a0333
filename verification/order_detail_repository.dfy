/** The order-line table (OrderDetails), keyed by the pair (OrderID,
    ProductID); both parts are supplied by the client. */
module OrderDetailRepository {
  import opened Wrappers
  import opened Domain
  import KeyedTable

  type Table = seq<OrderDetail>

  /** List-all: every stored row, in store order; each of them is what
      get-by-key returns for its own pair. */
  function GetAll(t: Table): (r: seq<OrderDetail>)
    ensures r == t
    ensures KeyedTable.Unique(t, OrderDetailKey) ==>
      forall i :: 0 <= i < |r| ==> GetById(t, Some(r[i].orderID), Some(r[i].productID)) == Some(r[i])
  {
    KeyedTable.LookupEveryRow(t, OrderDetailKey);
    t
  }

  /** Get-by-key: a row matches only when both its OrderID and its ProductID
      equal the given ones; a null part matches nothing. */
  function GetById(t: Table, orderId: Option<int>, productId: Option<int>): (r: Option<OrderDetail>)
    ensures KeyedTable.IsLookup(t, OrderDetailKey, KeyedTable.Both(orderId, productId), r)
    ensures r.Some? ==> orderId == Some(r.value.orderID) && productId == Some(r.value.productID)
  {
    KeyedTable.Get(t, OrderDetailKey, KeyedTable.Both(orderId, productId))
  }

  /** Add: a null row throws; a taken pair is rejected by the store; otherwise
      the row is appended and returned. */
  function Add(t: Table, e: Option<OrderDetail>): (r: Result<(OrderDetail, Table), KeyedTable.RepoError>)
    ensures KeyedTable.IsInsert(t, OrderDetailKey, e, r)
    ensures e.None? ==> r == Failure(KeyedTable.NullArgument)
    ensures r.Success? ==> GetById(r.value.1, Some(e.value.orderID), Some(e.value.productID)) == Some(e.value)
    ensures r.Success? && KeyedTable.Unique(t, OrderDetailKey) ==> KeyedTable.Unique(r.value.1, OrderDetailKey)
  {
    KeyedTable.Insert(t, OrderDetailKey, e)
  }

  /** The assignments of an edit: UnitPrice, Quantity and Discount are taken
      from the argument and both key parts stay; those are all the non-key
      columns, so on a row with the argument's pair the result is the argument. */
  function Copy(found: OrderDetail, e: OrderDetail): (r: OrderDetail)
    ensures OrderDetailKey(r) == OrderDetailKey(found)
    ensures OrderDetailKey(found) == OrderDetailKey(e) ==> r == e
  {
    found.(unitPrice := e.unitPrice, quantity := e.quantity, discount := e.discount)
  }

  /** Edit: null and no change for an absent pair; otherwise the found row
      takes the argument's columns. What is returned is the argument itself
      rather than the stored row; the two are equal. */
  function Edit(t: Table, e: OrderDetail): (r: (Option<OrderDetail>, Table))
    ensures KeyedTable.IsReplace(t, OrderDetailKey, e, r)
    ensures KeyedTable.Unique(t, OrderDetailKey) ==> KeyedTable.Unique(r.1, OrderDetailKey)
  {
    var u := KeyedTable.Update(t, OrderDetailKey, e, Copy);
    var r := (if u.0.Some? then Some(e) else None, u.1);
    KeyedTable.ReplacePreservesUnique(t, OrderDetailKey, e, r);
    r
  }

  /** Delete: false and no change for an absent pair; otherwise exactly that
      row is removed and true is returned. */
  function Delete(t: Table, orderId: Option<int>, productId: Option<int>): (r: (bool, Table))
    ensures KeyedTable.IsRemove(t, OrderDetailKey, KeyedTable.Both(orderId, productId), r)
    ensures r.0 && KeyedTable.Unique(t, OrderDetailKey) ==> GetById(r.1, orderId, productId) == None
  {
    KeyedTable.Remove(t, OrderDetailKey, KeyedTable.Both(orderId, productId))
  }
}
