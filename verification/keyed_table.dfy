/** The repository pattern shared by every entity: a table is a sequence of
    rows in store order, each row has a key (`key`), and the five repository
    operations look rows up with `FirstOrDefaultAsync(x => key(x) == id)`.
    A `null` id matches no row, because no stored key is null. */
module KeyedTable {
  import opened Wrappers

  /** What the repository throws instead of returning: `ArgumentNullException`
      for a null row, and the store's rejection of a second row with a key that
      is already present (its primary-key constraint). */
  datatype RepoError = NullArgument | KeyConflict

  predicate Has<R, K(==)>(t: seq<R>, key: R -> K, k: K) {
    exists i :: 0 <= i < |t| && key(t[i]) == k
  }

  /** The primary-key invariant of a table. */
  predicate Unique<R, K(==)>(t: seq<R>, key: R -> K) {
    forall i, j :: 0 <= i < |t| && 0 <= j < |t| && key(t[i]) == key(t[j]) ==> i == j
  }

  /** `i` is the position of the first row whose key is `k`. */
  predicate FirstMatch<R, K(==)>(t: seq<R>, key: R -> K, k: K, i: int) {
    && 0 <= i < |t|
    && key(t[i]) == k
    && forall j :: 0 <= j < i ==> key(t[j]) != k
  }

  /** Both parts of a composite id, or null when either part is null (the
      `&&` of two comparisons with null). */
  function Both<A, B>(a: Option<A>, b: Option<B>): (r: Option<(A, B)>)
    ensures r.Some? <==> a.Some? && b.Some?
    ensures r.Some? ==> r.value == (a.value, b.value)
  {
    if a.Some? && b.Some? then Some((a.value, b.value)) else None
  }

  /** Position of the first row with key `k`. */
  function Find<R, K(==)>(t: seq<R>, key: R -> K, k: K): (r: Option<nat>)
    ensures r.None? <==> !Has(t, key, k)
    ensures r.Some? ==> FirstMatch(t, key, k, r.value)
  {
    if |t| == 0 then None
    else if key(t[0]) == k then Some(0)
    else
      match Find(t[1..], key, k)
      case None => None
      case Some(i) => Some(i + 1)
  }

  /** The specification of get-by-key: null for a null id or a missing key,
      otherwise the first row with that key. */
  ghost predicate IsLookup<R, K>(t: seq<R>, key: R -> K, id: Option<K>, r: Option<R>) {
    match id
    case None => r.None?
    case Some(k) =>
      && (r.Some? <==> Has(t, key, k))
      && (r.Some? ==> exists i :: FirstMatch(t, key, k, i) && r.value == t[i])
  }

  /** Get-by-key followed by a change `f` to the found row (the read-side
      trims): null as for a lookup, otherwise `f` of the first row with the key. */
  ghost predicate IsLookupThen<R, K, S>(t: seq<R>, key: R -> K, id: Option<K>, f: R -> S, r: Option<S>) {
    match id
    case None => r.None?
    case Some(k) =>
      && (r.Some? <==> Has(t, key, k))
      && (r.Some? ==> exists i :: FirstMatch(t, key, k, i) && r.value == f(t[i]))
  }

  /** The specification of add: a null row throws; a row whose key is taken is
      rejected by the store; otherwise the row is appended and returned. */
  ghost predicate IsInsert<R, K>(t: seq<R>, key: R -> K, e: Option<R>, r: Result<(R, seq<R>), RepoError>) {
    match e
    case None => r == Failure(NullArgument)
    case Some(x) =>
      && (r.Success? <==> !Has(t, key, key(x)))
      && (r.Failure? ==> r.error == KeyConflict)
      && (r.Success? ==> r.value == (x, t + [x]))
  }

  /** The specification of an edit that copies every non-key column: a missing
      key changes nothing and yields null; otherwise the first row with the
      argument's key becomes the argument, every other row is untouched, and
      the stored row is returned. */
  ghost predicate IsReplace<R, K>(t: seq<R>, key: R -> K, e: R, r: (Option<R>, seq<R>)) {
    && (!Has(t, key, key(e)) ==> r == (None, t))
    && (Has(t, key, key(e)) ==> exists i :: FirstMatch(t, key, key(e), i) && r == (Some(e), t[i := e]))
  }

  /** The specification of delete: false and no change when the key is
      missing; otherwise true, and exactly the first row with that key is gone. */
  ghost predicate IsRemove<R, K>(t: seq<R>, key: R -> K, id: Option<K>, r: (bool, seq<R>)) {
    && (r.0 <==> id.Some? && Has(t, key, id.value))
    && (!r.0 ==> r.1 == t)
    && (r.0 ==> exists i :: FirstMatch(t, key, id.value, i) && r.1 == t[..i] + t[i + 1..])
  }

  /** `FirstOrDefaultAsync(x => key(x) == id)`. */
  function Get<R, K(==)>(t: seq<R>, key: R -> K, id: Option<K>): (r: Option<R>)
    ensures IsLookup(t, key, id, r)
  {
    match id
    case None => None
    case Some(k) =>
      match Find(t, key, k)
      case None => None
      case Some(i) => Some(t[i])
  }

  /** `AddAsync` followed by `SaveChangesAsync`. */
  function Insert<R, K(==)>(t: seq<R>, key: R -> K, e: Option<R>): (r: Result<(R, seq<R>), RepoError>)
    ensures IsInsert(t, key, e, r)
    ensures r.Success? && Unique(t, key) ==> Unique(r.value.1, key)
    ensures r.Success? ==> Get(r.value.1, key, Some(key(e.value))) == Some(e.value)
  {
    match e
    case None => Failure(NullArgument)
    case Some(x) =>
      if Has(t, key, key(x)) then Failure(KeyConflict)
      else
        assert FirstMatch(t + [x], key, key(x), |t|);
        Success((x, t + [x]))
  }

  /** Look the argument's key up and overwrite the found row with
      `copy(found, argument)`, the field-by-field assignment of an edit. */
  function Update<R, K(==)>(t: seq<R>, key: R -> K, e: R, copy: (R, R) -> R): (r: (Option<R>, seq<R>))
    ensures !Has(t, key, key(e)) ==> r == (None, t)
    ensures Has(t, key, key(e)) ==>
      exists i :: FirstMatch(t, key, key(e), i) && r == (Some(copy(t[i], e)), t[i := copy(t[i], e)])
  {
    match Find(t, key, key(e))
    case None => (None, t)
    case Some(i) =>
      var row := copy(t[i], e);
      (Some(row), t[i := row])
  }

  /** Look the id up and remove the found row. */
  function Remove<R, K(==)>(t: seq<R>, key: R -> K, id: Option<K>): (r: (bool, seq<R>))
    ensures IsRemove(t, key, id, r)
    ensures Unique(t, key) ==> Unique(r.1, key)
    ensures r.0 && Unique(t, key) ==> !Has(r.1, key, id.value)
  {
    match id
    case None => (false, t)
    case Some(k) =>
      match Find(t, key, k)
      case None => (false, t)
      case Some(i) =>
        var rest := t[..i] + t[i + 1..];
        RemovePreservesUnique(t, key, i);
        (true, rest)
  }

  /** Removing one row keeps keys unique, and the removed key is then absent. */
  lemma RemovePreservesUnique<R, K>(t: seq<R>, key: R -> K, i: nat)
    requires i < |t|
    ensures Unique(t, key) ==> Unique(t[..i] + t[i + 1..], key)
    ensures Unique(t, key) ==> !Has(t[..i] + t[i + 1..], key, key(t[i]))
  {
    var rest := t[..i] + t[i + 1..];
    assert forall j :: 0 <= j < |rest| ==> rest[j] == t[if j < i then j else j + 1];
  }

  /** In a table with unique keys every row is found by its own key: list-all
      and get-by-key agree. */
  lemma LookupEveryRow<R, K>(t: seq<R>, key: R -> K)
    ensures Unique(t, key) ==> forall i :: 0 <= i < |t| ==> Get(t, key, Some(key(t[i]))) == Some(t[i])
  {
    forall i | 0 <= i < |t| && Unique(t, key)
      ensures Get(t, key, Some(key(t[i]))) == Some(t[i])
    {
      assert FirstMatch(t, key, key(t[i]), i);
    }
  }

  /** A replacement that keeps the key keeps keys unique, and the edited row is
      then what get-by-key returns. */
  lemma ReplacePreservesUnique<R, K>(t: seq<R>, key: R -> K, e: R, r: (Option<R>, seq<R>))
    requires IsReplace(t, key, e, r)
    ensures Unique(t, key) ==> Unique(r.1, key)
    ensures r.0.Some? && Unique(t, key) ==> Get(r.1, key, Some(key(e))) == Some(e)
  {
    if Has(t, key, key(e)) {
      var i :| FirstMatch(t, key, key(e), i) && r == (Some(e), t[i := e]);
      if Unique(t, key) {
        assert forall j :: 0 <= j < |t| ==> key(r.1[j]) == key(t[j]);
        assert FirstMatch(r.1, key, key(e), i);
      }
    }
  }

  /** Add and delete are inverse: adding a row whose key is free and then
      deleting that key gives back the table as it was. */
  lemma {:induction false} InsertThenRemove<R, K>(t: seq<R>, key: R -> K, x: R)
    requires !Has(t, key, key(x))
    ensures Insert(t, key, Some(x)).Success?
    ensures Remove(Insert(t, key, Some(x)).value.1, key, Some(key(x))) == (true, t)
  {
    var u := t + [x];
    assert FirstMatch(u, key, key(x), |t|);
    assert u[..|t|] + u[|t| + 1..] == t;
  }

  /** An edit is idempotent: applying the same edit to its own result returns
      the same row and leaves the table as the first edit left it. */
  lemma {:induction false} ReplaceTwice<R, K>(t: seq<R>, key: R -> K, e: R, r1: (Option<R>, seq<R>), r2: (Option<R>, seq<R>))
    requires IsReplace(t, key, e, r1)
    requires IsReplace(r1.1, key, e, r2)
    ensures r2 == r1
  {
    if Has(t, key, key(e)) {
      var i :| FirstMatch(t, key, key(e), i) && r1 == (Some(e), t[i := e]);
      assert FirstMatch(r1.1, key, key(e), i);
      var j :| FirstMatch(r1.1, key, key(e), j) && r2 == (Some(e), r1.1[j := e]);
      assert i == j;
      assert r1.1[i := e] == r1.1;
    }
  }
}
