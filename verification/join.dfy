/** The two ways a link row's display columns are looked up in a referenced
    table: one `FirstOrDefaultAsync` per row (the domain classes), or one
    `ToDictionaryAsync` over every referenced row followed by `TryGetValue`
    and `?? "Unknown"` (the list endpoints). */
module Join {
  import opened Wrappers
  import KeyedTable

  /** The text a list endpoint shows for a reference it cannot resolve. */
  const Unknown: string := "Unknown"

  /** `r` is `column` of the first row of `t` with key `k`, or null if there
      is no such row. */
  ghost predicate IsColumnOfFirst<R, K, V>(t: seq<R>, key: R -> K, column: R -> Option<V>, k: K, r: Option<V>) {
    && (!KeyedTable.Has(t, key, k) ==> r.None?)
    && (KeyedTable.Has(t, key, k) ==> exists i :: KeyedTable.FirstMatch(t, key, k, i) && r == column(t[i]))
  }

  /** `Where(x => key(x) == k).Select(column).FirstOrDefaultAsync()`. */
  function FirstOrDefault<R, K(==), V>(t: seq<R>, key: R -> K, column: R -> Option<V>, k: K): (r: Option<V>)
    ensures IsColumnOfFirst(t, key, column, k, r)
  {
    match KeyedTable.Find(t, key, k)
    case None => None
    case Some(i) => column(t[i])
  }

  /** Two rows of `t` whose common key is among the `wanted` ones. */
  ghost predicate DuplicateAmong<R, K>(t: seq<R>, key: R -> K, wanted: set<K>) {
    exists i, j :: 0 <= i < j < |t| && key(t[i]) == key(t[j]) && key(t[i]) in wanted
  }

  /** `Where(x => wanted.Contains(key(x))).ToDictionaryAsync(key, value)`:
      fails (the `ArgumentException` of a repeated key) exactly when two
      selected rows share a key; otherwise maps each selected key to the value
      of its row. */
  function ToDictionary<R, K(==), V>(t: seq<R>, key: R -> K, value: R -> V, wanted: set<K>): (r: Option<map<K, V>>)
    ensures r.None? <==> DuplicateAmong(t, key, wanted)
    ensures r.Some? ==> r.value.Keys <= wanted
    ensures r.Some? ==> forall k :: k in wanted ==> (k in r.value <==> KeyedTable.Has(t, key, k))
    ensures r.Some? ==> forall i :: 0 <= i < |t| && key(t[i]) in wanted ==>
      key(t[i]) in r.value && r.value[key(t[i])] == value(t[i])
    decreases |t|
  {
    if |t| == 0 then Some(map[])
    else
      var rest := ToDictionary(t[1..], key, value, wanted);
      var k := key(t[0]);
      assert forall j :: 0 < j < |t| ==> t[j] == t[1..][j - 1];
      if k !in wanted then rest
      else
        match rest
        case None => None
        case Some(m) =>
          if k in m then
            None
          else
            Some(m[k := value(t[0])])
  }

  /** `TryGetValue(k, out var v)` followed by `v ?? "Unknown"`. */
  function TryGetOrUnknown<K>(m: map<K, Option<string>>, k: K): (r: string)
    ensures k in m && m[k].Some? ==> r == m[k].value
    ensures k !in m || m[k].None? ==> r == Unknown
  {
    if k in m then m[k].GetOr(Unknown) else Unknown
  }

  /** With no repeated wanted key the dictionary is built, and for a wanted
      key the list endpoint shows what the single-row lookup finds, with
      "Unknown" in place of null. */
  lemma {:induction false} DictionaryAgreesWithFirstOrDefault<R, K>(t: seq<R>, key: R -> K, column: R -> Option<string>, wanted: set<K>, k: K)
    requires !DuplicateAmong(t, key, wanted)
    requires k in wanted
    ensures ToDictionary(t, key, column, wanted).Some?
    ensures TryGetOrUnknown(ToDictionary(t, key, column, wanted).value, k) == FirstOrDefault(t, key, column, k).GetOr(Unknown)
  {
    match KeyedTable.Find(t, key, k)
    case None =>
    case Some(i) =>
  }

  /** A table with unique keys has no repeated key, wanted or not. */
  lemma UniqueHasNoDuplicate<R, K>(t: seq<R>, key: R -> K, wanted: set<K>)
    requires KeyedTable.Unique(t, key)
    ensures !DuplicateAmong(t, key, wanted)
  {
  }

  /** The ids the link rows refer to (`links.Select(linkKey).ToList()`). */
  function Ids<L, K(==)>(links: seq<L>, linkKey: L -> K): (r: set<K>)
    ensures forall i :: 0 <= i < |links| ==> linkKey(links[i]) in r
  {
    set i | 0 <= i < |links| :: linkKey(links[i])
  }

  /** One display column of a list endpoint: the dictionary of the referenced
      rows, then one lookup per link row. It fails when two referenced rows
      share a key; otherwise row `i` shows what the single-row lookup finds for
      link `i`, or "Unknown". */
  function BulkColumn<L, R, K(==)>(t: seq<R>, key: R -> K, column: R -> Option<string>, links: seq<L>, linkKey: L -> K): (r: Option<seq<string>>)
    ensures r.None? <==> DuplicateAmong(t, key, Ids(links, linkKey))
    ensures KeyedTable.Unique(t, key) ==> r.Some?
    ensures r.Some? ==> |r.value| == |links|
    ensures r.Some? ==> forall i :: 0 <= i < |links| ==>
      r.value[i] == FirstOrDefault(t, key, column, linkKey(links[i])).GetOr(Unknown)
  {
    var wanted := Ids(links, linkKey);
    match ToDictionary(t, key, column, wanted)
    case None => None
    case Some(m) =>
      var shown := seq(|links|, i requires 0 <= i < |links| => TryGetOrUnknown(m, linkKey(links[i])));
      ResolveEveryLink(t, key, column, links, linkKey);
      Some(shown)
  }

  /** Every link row's dictionary lookup agrees with its single-row lookup. */
  lemma {:induction false} ResolveEveryLink<L, R, K>(t: seq<R>, key: R -> K, column: R -> Option<string>, links: seq<L>, linkKey: L -> K)
    requires !DuplicateAmong(t, key, Ids(links, linkKey))
    ensures ToDictionary(t, key, column, Ids(links, linkKey)).Some?
    ensures forall i :: 0 <= i < |links| ==>
      TryGetOrUnknown(ToDictionary(t, key, column, Ids(links, linkKey)).value, linkKey(links[i]))
        == FirstOrDefault(t, key, column, linkKey(links[i])).GetOr(Unknown)
  {
    var wanted := Ids(links, linkKey);
    forall i | 0 <= i < |links|
      ensures TryGetOrUnknown(ToDictionary(t, key, column, wanted).value, linkKey(links[i]))
        == FirstOrDefault(t, key, column, linkKey(links[i])).GetOr(Unknown)
    {
      DictionaryAgreesWithFirstOrDefault(t, key, column, wanted, linkKey(links[i]));
    }
  }
}
