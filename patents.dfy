/** The data every parser produces: a dictionary from patent number to
    `{'title': ..., 'abstract': ...}`, and how such dictionaries are combined. */
module Patents {
  import opened Results

  datatype Entry = Entry(title: string, abstractText: string)

  /** A per-file or per-year dictionary keyed by patent number. */
  type PatDict = map<string, Entry>

  /** The abstract stored when a record has none. */
  const Null: string := "NULL"

  /** `acc.update(ds[0]); acc.update(ds[1]); ...`: each dictionary in turn
      overrides the keys it holds. */
  function Merge(acc: PatDict, ds: seq<PatDict>): (m: PatDict)
    ensures acc.Keys <= m.Keys
    ensures ds != [] ==> forall k :: k in ds[|ds| - 1] ==> k in m && m[k] == ds[|ds| - 1][k]
  {
    if ds == [] then acc else Merge(acc, ds[..|ds| - 1]) + ds[|ds| - 1]
  }

  /** Setting one key is merging a one-entry dictionary. */
  lemma UpdateIsMerge(d: PatDict, k: string, v: Entry)
    ensures d[k := v] == d + map[k := v]
  {
  }

  /** The position of the last dictionary of `ds` that holds `k`, if any. */
  function LastHolder(ds: seq<PatDict>, k: string): (r: Option<nat>)
    ensures r.Some? ==> r.value < |ds| && k in ds[r.value]
    ensures r.Some? ==> forall i :: r.value < i < |ds| ==> k !in ds[i]
    ensures r.None? ==> forall i :: 0 <= i < |ds| ==> k !in ds[i]
  {
    if ds == [] then None
    else if k in ds[|ds| - 1] then Some(|ds| - 1)
    else LastHolder(ds[..|ds| - 1], k)
  }

  /** Every key of the merge comes from the last dictionary that holds it; a
      key that no dictionary holds keeps the value it had in `acc`, and the
      merge has no other keys. */
  lemma {:induction false} MergeLookup(acc: PatDict, ds: seq<PatDict>, k: string)
    ensures var m := Merge(acc, ds);
      match LastHolder(ds, k)
      case Some(i) => k in m && m[k] == ds[i][k]
      case None => (k in m <==> k in acc) && (k in acc ==> m[k] == acc[k])
  {
    if ds != [] {
      MergeLookup(acc, ds[..|ds| - 1], k);
    }
  }

  /** No key is lost: the keys of the merge are those of `acc` and of every
      dictionary merged into it. */
  lemma MergeKeys(acc: PatDict, ds: seq<PatDict>, k: string)
    ensures k in Merge(acc, ds) <==> k in acc || exists i :: 0 <= i < |ds| && k in ds[i]
  {
    MergeLookup(acc, ds, k);
  }

  /** Merging `[d] + ds` into `acc` is merging `ds` into `acc` updated by `d`. */
  lemma {:induction false} MergeCons(acc: PatDict, d: PatDict, ds: seq<PatDict>)
    ensures Merge(acc, [d] + ds) == Merge(acc + d, ds)
  {
    if ds != [] {
      assert ([d] + ds)[..|ds|] == [d] + ds[..|ds| - 1];
      MergeCons(acc, d, ds[..|ds| - 1]);
    } else {
      assert Merge(acc, [d]) == Merge(acc, []) + d;
    }
  }

  /** Starting from `d` and updating with `d` again changes nothing: the result
      is the plain left fold of all the dictionaries from the empty one. */
  lemma MergeFirstAgain(d: PatDict, ds: seq<PatDict>)
    ensures Merge(d, [d] + ds) == Merge(map[], [d] + ds)
    ensures Merge(d, [d] + ds) == Merge(d, ds)
  {
    MergeCons(d, d, ds);
    MergeCons(map[], d, ds);
    assert d + d == d;
    assert map[] + d == d;
  }
}
