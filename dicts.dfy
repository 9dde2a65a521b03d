/** Python dictionaries as insertion-ordered sequences of bindings. */
module Dicts {
  import opened Base

  predicate UniqueKeys<V>(d: seq<(string, V)>)
  {
    forall i, j :: 0 <= i < j < |d| ==> d[i].0 != d[j].0
  }

  /** Position of key `k` in an insertion-ordered dictionary. */
  function Find<V>(d: seq<(string, V)>, k: string): (r: Option<nat>)
    ensures r.None? <==> forall i :: 0 <= i < |d| ==> d[i].0 != k
    ensures r.Some? ==> r.value < |d| && d[r.value].0 == k
  {
    if d == [] then None
    else if d[|d| - 1].0 == k then Some(|d| - 1)
    else
      var r := Find(d[..|d| - 1], k);
      assert forall i :: 0 <= i < |d| - 1 ==> d[..|d| - 1][i] == d[i];
      r
  }

  /** `d[k] = v` on an insertion-ordered dictionary: a present key keeps
      its place. */
  function Put<V>(d: seq<(string, V)>, k: string, v: V): (r: seq<(string, V)>)
    requires UniqueKeys(d)
    ensures UniqueKeys(r)
    ensures |r| == |d| + (if Find(d, k).Some? then 0 else 1)
    ensures forall i :: 0 <= i < |d| ==> r[i] == (if d[i].0 == k then (k, v) else d[i])
    ensures Find(d, k).None? ==> r[|d|] == (k, v)
  {
    var f := Find(d, k);
    if f.Some? then d[f.value := (k, v)] else d + [(k, v)]
  }

  /** After `d[k] = v` the keys are the old keys and `k`. */
  lemma PutKeys<V>(d: seq<(string, V)>, k: string, v: V, x: string)
    requires UniqueKeys(d)
    ensures Find(Put(d, k, v), x).Some? <==> Find(d, x).Some? || x == k
  {
    var r := Put(d, k, v);
    if Find(d, x).Some? {
      assert r[Find(d, x).value].0 == x;
    } else if x == k {
      assert r[|d|].0 == k;
    } else {
      assert forall i :: 0 <= i < |r| ==> r[i].0 != x;
    }
  }

  /** With unique keys, a key is found exactly where it sits. */
  lemma FindAt<V>(d: seq<(string, V)>, i: int)
    requires UniqueKeys(d) && 0 <= i < |d|
    ensures Find(d, d[i].0) == Some(i)
  {
  }

  /** After `d[k] = v`, looking `k` up gives `v`. */
  lemma PutValue<V>(d: seq<(string, V)>, k: string, v: V)
    requires UniqueKeys(d)
    ensures Find(Put(d, k, v), k).Some?
    ensures Put(d, k, v)[Find(Put(d, k, v), k).value] == (k, v)
  {
    var f := Find(d, k);
    if f.Some? {
      FindAt(Put(d, k, v), f.value);
    } else {
      FindAt(Put(d, k, v), |d|);
    }
  }

  /** `d[k] = v` leaves the binding of every other key where and as it was. */
  lemma PutOther<V>(d: seq<(string, V)>, k: string, v: V, x: string)
    requires UniqueKeys(d) && x != k && Find(d, x).Some?
    ensures Find(Put(d, k, v), x) == Find(d, x)
    ensures Put(d, k, v)[Find(d, x).value] == d[Find(d, x).value]
  {
    FindAt(Put(d, k, v), Find(d, x).value);
  }

  /** `list(d.keys())`. */
  function KeyList<V>(d: seq<(string, V)>): (r: seq<string>)
    ensures |r| == |d| && forall i :: 0 <= i < |d| ==> r[i] == d[i].0
  {
    seq(|d|, i requires 0 <= i < |d| => d[i].0)
  }
}
