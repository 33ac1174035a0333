/** The customer-to-demographic link table (CustomerCustomerDemo), keyed by
    the pair (CustomerID, CustomerTypeID), which is the whole row. The
    repository declares a delete it never implements; it is not modelled. */
module CustomerCustomerDemoRepository {
  import opened Wrappers
  import opened Domain
  import KeyedTable

  type Table = seq<CustomerCustomerDemo>

  /** List-all: every stored link row, unchanged and in store order. */
  function GetAll(t: Table): (r: seq<CustomerCustomerDemo>)
    ensures r == t
    ensures KeyedTable.Unique(t, CustomerCustomerDemoKey) ==>
      forall i :: 0 <= i < |r| ==> GetById(t, Some(r[i].customerID), Some(r[i].customerTypeID)) == Some(r[i])
  {
    KeyedTable.LookupEveryRow(t, CustomerCustomerDemoKey);
    t
  }

  /** Get-by-key: a row matches only when both its CustomerID and its
      CustomerTypeID equal the given ones; a null part matches nothing. */
  function GetById(t: Table, customerId: Option<string>, customerTypeId: Option<string>): (r: Option<CustomerCustomerDemo>)
    ensures KeyedTable.IsLookup(t, CustomerCustomerDemoKey, KeyedTable.Both(customerId, customerTypeId), r)
    ensures r.Some? ==> r.value == CustomerCustomerDemo(customerId.value, customerTypeId.value)
  {
    KeyedTable.Get(t, CustomerCustomerDemoKey, KeyedTable.Both(customerId, customerTypeId))
  }

  /** Add: a null row throws; a taken pair is rejected by the store; otherwise
      the row is appended and returned. */
  function Add(t: Table, e: Option<CustomerCustomerDemo>): (r: Result<(CustomerCustomerDemo, Table), KeyedTable.RepoError>)
    ensures KeyedTable.IsInsert(t, CustomerCustomerDemoKey, e, r)
    ensures e.None? ==> r == Failure(KeyedTable.NullArgument)
    ensures r.Success? ==> GetById(r.value.1, Some(e.value.customerID), Some(e.value.customerTypeID)) == Some(e.value)
    ensures r.Success? && KeyedTable.Unique(t, CustomerCustomerDemoKey) ==> KeyedTable.Unique(r.value.1, CustomerCustomerDemoKey)
  {
    KeyedTable.Insert(t, CustomerCustomerDemoKey, e)
  }

  /** The assignments of an edit: both key columns are set from the argument,
      that is, to the values the row was found by. */
  function Copy(found: CustomerCustomerDemo, e: CustomerCustomerDemo): (r: CustomerCustomerDemo)
    ensures CustomerCustomerDemoKey(found) == CustomerCustomerDemoKey(e) ==> r == found
  {
    found.(customerID := e.customerID, customerTypeID := e.customerTypeID)
  }

  /** Edit: null for an absent pair; otherwise the found row is returned.
      Either way the table is left as it was. */
  function Edit(t: Table, e: CustomerCustomerDemo): (r: (Option<CustomerCustomerDemo>, Table))
    ensures KeyedTable.IsReplace(t, CustomerCustomerDemoKey, e, r)
    ensures r.1 == t
    ensures r.0 == GetById(t, Some(e.customerID), Some(e.customerTypeID))
  {
    KeyedTable.Update(t, CustomerCustomerDemoKey, e, Copy)
  }
}
