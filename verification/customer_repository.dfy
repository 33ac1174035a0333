/** The Customers table: CustomerID is supplied by the client. */
module CustomerRepository {
  import opened Wrappers
  import opened Domain
  import KeyedTable

  type Table = seq<Customer>

  /** List-all: every stored row, in store order; each of them is what
      get-by-key returns for its own id. */
  function GetAll(t: Table): (r: seq<Customer>)
    ensures r == t
    ensures KeyedTable.Unique(t, CustomerKey) ==>
      forall i :: 0 <= i < |r| ==> GetById(t, Some(r[i].customerID)) == Some(r[i])
  {
    KeyedTable.LookupEveryRow(t, CustomerKey);
    t
  }

  function GetById(t: Table, id: Option<string>): (r: Option<Customer>)
    ensures KeyedTable.IsLookup(t, CustomerKey, id, r)
  {
    KeyedTable.Get(t, CustomerKey, id)
  }

  /** Add: a null row throws; a taken key is rejected by the store;
      otherwise the row is appended and returned. */
  function Add(t: Table, e: Option<Customer>): (r: Result<(Customer, Table), KeyedTable.RepoError>)
    ensures KeyedTable.IsInsert(t, CustomerKey, e, r)
    ensures e.None? ==> r == Failure(KeyedTable.NullArgument)
    ensures r.Success? ==> GetById(r.value.1, Some(e.value.customerID)) == Some(e.value)
    ensures r.Success? && KeyedTable.Unique(t, CustomerKey) ==> KeyedTable.Unique(r.value.1, CustomerKey)
  {
    KeyedTable.Insert(t, CustomerKey, e)
  }

  /** The assignments of an edit: CompanyName through Fax, the ten non-key
      columns, are taken from the argument and CustomerID stays. That is every
      column, so on a row with the argument's key the result is the argument. */
  function Copy(found: Customer, e: Customer): (r: Customer)
    ensures r.customerID == found.customerID
    ensures found.customerID == e.customerID ==> r == e
  {
    found.(companyName := e.companyName, contactName := e.contactName,
      contactTitle := e.contactTitle, address := e.address, city := e.city, region := e.region,
      postalCode := e.postalCode, country := e.country, phone := e.phone, fax := e.fax)
  }

  /** Edit: null and no change for an absent id; otherwise the found row takes
      the argument's columns and is returned. */
  function Edit(t: Table, e: Customer): (r: (Option<Customer>, Table))
    ensures KeyedTable.IsReplace(t, CustomerKey, e, r)
    ensures KeyedTable.Unique(t, CustomerKey) ==> KeyedTable.Unique(r.1, CustomerKey)
  {
    var r := KeyedTable.Update(t, CustomerKey, e, Copy);
    KeyedTable.ReplacePreservesUnique(t, CustomerKey, e, r);
    r
  }

  /** Delete: false and no change for an absent id; otherwise the row is
      removed, true is returned and a later get-by-key finds nothing. */
  function Delete(t: Table, id: Option<string>): (r: (bool, Table))
    ensures KeyedTable.IsRemove(t, CustomerKey, id, r)
    ensures r.0 && KeyedTable.Unique(t, CustomerKey) ==> GetById(r.1, id) == None
  {
    KeyedTable.Remove(t, CustomerKey, id)
  }
}
