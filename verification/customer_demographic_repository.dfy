/** The CustomerDemographics table: CustomerTypeID is supplied by the client, and every read
    returns CustomerTypeID with its surrounding white space removed (the stored
    column is fixed-width and padded). Writes store the value as given. */
module CustomerDemographicRepository {
  import opened Wrappers
  import opened Domain
  import Strings
  import KeyedTable

  type Table = seq<CustomerDemographic>

  /** A row as read: CustomerTypeID trimmed, every other column as stored. */
  function Trimmed(x: CustomerDemographic): (r: CustomerDemographic)
    ensures Strings.IsTrimmed(r.customerTypeID)
    ensures Strings.IsStrippedOf(r.customerTypeID, x.customerTypeID)
    ensures r.(customerTypeID := x.customerTypeID) == x
    ensures Strings.IsTrimmed(x.customerTypeID) ==> r == x
  {
    x.(customerTypeID := Strings.Trim(x.customerTypeID))
  }

  /** List-all: every stored row in store order, each one trimmed; a table
      whose CustomerTypeID values are already trimmed reads back unchanged. */
  function GetAll(t: Table): (r: seq<CustomerDemographic>)
    ensures |r| == |t|
    ensures forall i :: 0 <= i < |t| ==> r[i] == Trimmed(t[i])
    ensures (forall i :: 0 <= i < |t| ==> Strings.IsTrimmed(t[i].customerTypeID)) ==> r == t
    ensures KeyedTable.Unique(t, CustomerDemographicKey) ==>
      forall i :: 0 <= i < |t| ==> GetById(t, Some(t[i].customerTypeID)) == Some(r[i])
  {
    KeyedTable.LookupEveryRow(t, CustomerDemographicKey);
    seq(|t|, i requires 0 <= i < |t| => Trimmed(t[i]))
  }

  /** Get-by-key: the first row whose stored CustomerTypeID equals the id, trimmed;
      null for a null or absent id. */
  function GetById(t: Table, id: Option<string>): (r: Option<CustomerDemographic>)
    ensures KeyedTable.IsLookupThen(t, CustomerDemographicKey, id, Trimmed, r)
    ensures r.Some? ==> Strings.IsTrimmed(r.value.customerTypeID)
  {
    match KeyedTable.Get(t, CustomerDemographicKey, id)
    case None => None
    case Some(x) => Some(Trimmed(x))
  }

  /** Add: a null row throws; a taken key is rejected by the store;
      otherwise the row is appended untrimmed and returned. */
  function Add(t: Table, e: Option<CustomerDemographic>): (r: Result<(CustomerDemographic, Table), KeyedTable.RepoError>)
    ensures KeyedTable.IsInsert(t, CustomerDemographicKey, e, r)
    ensures e.None? ==> r == Failure(KeyedTable.NullArgument)
    ensures r.Success? && KeyedTable.Unique(t, CustomerDemographicKey) ==> KeyedTable.Unique(r.value.1, CustomerDemographicKey)
  {
    KeyedTable.Insert(t, CustomerDemographicKey, e)
  }

  /** The assignments of an edit: CustomerDesc, the one non-key column, is taken
      from the argument and CustomerTypeID stays, so on a row with the argument's key
      the result is the argument. */
  function Copy(found: CustomerDemographic, e: CustomerDemographic): (r: CustomerDemographic)
    ensures r.customerTypeID == found.customerTypeID
    ensures found.customerTypeID == e.customerTypeID ==> r == e
  {
    found.(customerDesc := e.customerDesc)
  }

  /** Edit: null and no change for an absent key; otherwise the found row takes
      the argument's columns, untrimmed, and is returned. */
  function Edit(t: Table, e: CustomerDemographic): (r: (Option<CustomerDemographic>, Table))
    ensures KeyedTable.IsReplace(t, CustomerDemographicKey, e, r)
    ensures KeyedTable.Unique(t, CustomerDemographicKey) ==> KeyedTable.Unique(r.1, CustomerDemographicKey)
  {
    var r := KeyedTable.Update(t, CustomerDemographicKey, e, Copy);
    KeyedTable.ReplacePreservesUnique(t, CustomerDemographicKey, e, r);
    r
  }

  /** Delete: false and no change for an absent key; otherwise the row is
      removed, true is returned and a later get-by-key finds nothing. */
  function Delete(t: Table, id: Option<string>): (r: (bool, Table))
    ensures KeyedTable.IsRemove(t, CustomerDemographicKey, id, r)
    ensures r.0 && KeyedTable.Unique(t, CustomerDemographicKey) ==> GetById(r.1, id) == None
  {
    KeyedTable.Remove(t, CustomerDemographicKey, id)
  }
}
