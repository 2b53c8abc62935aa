/** NameValueCollection as the override controller uses it: an ordered list
    of (name, value) entries, read through the indexer and written through
    the indexer setter or `Set`. Names are compared ordinally, which is the
    comparer a collection copied from `ProviderSettings.Parameters` carries. */
module NameValues {
  import opened Results

  type Collection = seq<(string, string)>

  /** The entry names, in collection order. */
  function Keys(c: Collection): seq<string> {
    if |c| == 0 then [] else [c[0].0] + Keys(c[1..])
  }

  /** The indexer getter: the value of the first entry named `k`, or null. */
  function Get(c: Collection, k: string): (r: Option<string>)
    ensures r.None? <==> k !in Keys(c)
    ensures r.Some? ==> (k, r.value) in c
  {
    if |c| == 0 then None
    else if c[0].0 == k then Some(c[0].1)
    else Get(c[1..], k)
  }

  /** Gives every entry named `k` the value `v`, keeping names and order. */
  function Replace(c: Collection, k: string, v: string): Collection {
    if |c| == 0 then []
    else [if c[0].0 == k then (k, v) else c[0]] + Replace(c[1..], k, v)
  }

  /** `Set(k, v)` (and the indexer setter): an existing entry named `k` takes
      the value `v` in place; otherwise a new entry is appended at the end. */
  function Set(c: Collection, k: string, v: string): (r: Collection)
    ensures Get(r, k) == Some(v)
    ensures forall k' :: k' != k ==> Get(r, k') == Get(c, k')
    ensures Keys(r) == if k in Keys(c) then Keys(c) else Keys(c) + [k]
  {
    GetReplace(c, k, v);
    KeysReplace(c, k, v);
    GetAppend(c, k, v);
    KeysAppend(c, k, v);
    if k in Keys(c) then Replace(c, k, v) else c + [(k, v)]
  }

  lemma {:induction false} KeysReplace(c: Collection, k: string, v: string)
    ensures Keys(Replace(c, k, v)) == Keys(c)
  {
    if |c| > 0 {
      KeysReplace(c[1..], k, v);
    }
  }

  lemma {:induction false} GetReplace(c: Collection, k: string, v: string)
    ensures forall k' :: Get(Replace(c, k, v), k') ==
                         (if k' != k then Get(c, k') else if k in Keys(c) then Some(v) else None)
  {
    if |c| > 0 {
      GetReplace(c[1..], k, v);
      assert Replace(c, k, v)[1..] == Replace(c[1..], k, v);
    }
  }

  lemma {:induction false} KeysAppend(c: Collection, k: string, v: string)
    ensures Keys(c + [(k, v)]) == Keys(c) + [k]
  {
    if |c| > 0 {
      assert (c + [(k, v)])[1..] == c[1..] + [(k, v)];
      KeysAppend(c[1..], k, v);
    }
  }

  lemma {:induction false} GetAppend(c: Collection, k: string, v: string)
    ensures forall k' :: Get(c + [(k, v)], k') ==
                         (if k' in Keys(c) then Get(c, k') else if k' == k then Some(v) else None)
  {
    if |c| > 0 {
      assert (c + [(k, v)])[1..] == c[1..] + [(k, v)];
      GetAppend(c[1..], k, v);
    }
  }
}
