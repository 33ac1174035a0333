/** The categories table (Categories): CategoryID is assigned by the store. */
module CategoryRepository {
  import opened Wrappers
  import opened Domain
  import KeyedTable

  type Table = seq<Category>

  /** The row as stored when the store assigns it the key `id`. */
  function Assigned(e: Option<Category>, id: int): (r: Option<Category>)
    ensures r.Some? <==> e.Some?
    ensures r.Some? ==> r.value.categoryID == id && r.value.(categoryID := e.value.categoryID) == e.value
  {
    match e
    case None => None
    case Some(x) => Some(x.(categoryID := id))
  }

  /** List-all: every stored row, in store order; each of them is what
      get-by-key returns for its own id. */
  function GetAll(t: Table): (r: seq<Category>)
    ensures r == t
    ensures KeyedTable.Unique(t, CategoryKey) ==>
      forall i :: 0 <= i < |r| ==> GetById(t, Some(r[i].categoryID)) == Some(r[i])
  {
    KeyedTable.LookupEveryRow(t, CategoryKey);
    t
  }

  function GetById(t: Table, id: Option<int>): (r: Option<Category>)
    ensures KeyedTable.IsLookup(t, CategoryKey, id, r)
  {
    KeyedTable.Get(t, CategoryKey, id)
  }

  /** Add: a null row throws; otherwise the row, with the key the store
      assigns (`newId`), is appended and returned. */
  function Add(t: Table, e: Option<Category>, newId: int): (r: Result<(Category, Table), KeyedTable.RepoError>)
    ensures KeyedTable.IsInsert(t, CategoryKey, Assigned(e, newId), r)
    ensures e.None? ==> r == Failure(KeyedTable.NullArgument)
    ensures r.Success? ==> GetById(r.value.1, Some(newId)) == Some(r.value.0)
    ensures r.Success? && KeyedTable.Unique(t, CategoryKey) ==> KeyedTable.Unique(r.value.1, CategoryKey)
  {
    KeyedTable.Insert(t, CategoryKey, Assigned(e, newId))
  }

  /** The assignments of an edit: CategoryName, Description and Picture are
      taken from the argument, CategoryID stays. Those are all the non-key
      columns, so on a row with the argument's key the result is the argument. */
  function Copy(found: Category, e: Category): (r: Category)
    ensures r.categoryID == found.categoryID
    ensures found.categoryID == e.categoryID ==> r == e
  {
    found.(categoryName := e.categoryName, description := e.description, picture := e.picture)
  }

  /** Edit: null and no change for an absent id; otherwise the found row takes
      the argument's columns and is returned. */
  function Edit(t: Table, e: Category): (r: (Option<Category>, Table))
    ensures KeyedTable.IsReplace(t, CategoryKey, e, r)
    ensures KeyedTable.Unique(t, CategoryKey) ==> KeyedTable.Unique(r.1, CategoryKey)
  {
    var r := KeyedTable.Update(t, CategoryKey, e, Copy);
    KeyedTable.ReplacePreservesUnique(t, CategoryKey, e, r);
    r
  }

  /** Delete: false and no change for an absent id; otherwise the row is
      removed, true is returned and a later get-by-key finds nothing. */
  function Delete(t: Table, id: Option<int>): (r: (bool, Table))
    ensures KeyedTable.IsRemove(t, CategoryKey, id, r)
    ensures r.0 && KeyedTable.Unique(t, CategoryKey) ==> GetById(r.1, id) == None
  {
    KeyedTable.Remove(t, CategoryKey, id)
  }
}
