/** The generic key/value pair of the schemas and its conversions from and
    to a dictionary with string keys and values. */
module Schemas {
  import opened Base
  import opened Dicts

  datatype KeyValuePair = KeyValuePair(key: string, value: string)

  /** `KeyValuePair.from_dict`: one pair per binding, in the dictionary's
      order. */
  function FromDict(data: seq<(string, string)>): (r: seq<KeyValuePair>)
    ensures |r| == |data|
    ensures forall i :: 0 <= i < |data| ==> r[i].key == data[i].0 && r[i].value == data[i].1
  {
    seq(|data|, i requires 0 <= i < |data| => KeyValuePair(data[i].0, data[i].1))
  }

  /** `KeyValuePair.to_dict`: the pairs inserted in turn, a repeated key
      keeping its first place and taking its last value. */
  function ToDict(pairs: seq<KeyValuePair>): (r: seq<(string, string)>)
    ensures UniqueKeys(r)
    ensures |r| <= |pairs|
  {
    if pairs == [] then []
    else
      var n := |pairs| - 1;
      Put(ToDict(pairs[..n]), pairs[n].key, pairs[n].value)
  }

  /** Both conversions take nothing to nothing. */
  lemma EmptyConversions()
    ensures FromDict([]) == []
    ensures ToDict([]) == []
  {
  }

  /** A pair is the last of its key. */
  predicate LastOfKey(pairs: seq<KeyValuePair>, i: int)
  {
    0 <= i < |pairs| && forall j :: i < j < |pairs| ==> pairs[j].key != pairs[i].key
  }

  /** A key occurs among the pairs iff it occurs before the last pair or is
      the last pair's key. */
  lemma KeyOccursSnoc(pairs: seq<KeyValuePair>, pre: seq<KeyValuePair>, k: string)
    requires pairs != [] && pre == pairs[..|pairs| - 1]
    ensures (exists i :: 0 <= i < |pairs| && pairs[i].key == k) <==>
            (exists i :: 0 <= i < |pre| && pre[i].key == k) || pairs[|pairs| - 1].key == k
  {
    if exists i :: 0 <= i < |pairs| && pairs[i].key == k {
      var i :| 0 <= i < |pairs| && pairs[i].key == k;
      if i < |pre| {
        assert pre[i].key == k;
      }
    }
  }

  /** A pair last of its key stays so when a later pair is dropped. */
  lemma LastOfKeyPrefix(pairs: seq<KeyValuePair>, i: int)
    requires LastOfKey(pairs, i) && i < |pairs| - 1
    ensures LastOfKey(pairs[..|pairs| - 1], i) && pairs[..|pairs| - 1][i] == pairs[i]
  {
  }

  /** The dictionary has exactly the keys of the pairs. */
  lemma {:induction false} ToDictKeys(pairs: seq<KeyValuePair>, k: string)
    ensures Find(ToDict(pairs), k).Some? <==> exists i :: 0 <= i < |pairs| && pairs[i].key == k
  {
    if pairs != [] {
      var n := |pairs| - 1;
      var pre := pairs[..n];
      var d := ToDict(pre);
      assert ToDict(pairs) == Put(d, pairs[n].key, pairs[n].value);
      ToDictKeys(pre, k);
      PutKeys(d, pairs[n].key, pairs[n].value, k);
      KeyOccursSnoc(pairs, pre, k);
    }
  }

  /** Under each key is the value of the last pair with that key. */
  lemma {:induction false} ToDictLastWins(pairs: seq<KeyValuePair>, i: int)
    requires LastOfKey(pairs, i)
    ensures Find(ToDict(pairs), pairs[i].key).Some?
    ensures ToDict(pairs)[Find(ToDict(pairs), pairs[i].key).value].1 == pairs[i].value
  {
    var n := |pairs| - 1;
    var pre := pairs[..n];
    var k := pairs[i].key;
    var d := ToDict(pre);
    assert ToDict(pairs) == Put(d, pairs[n].key, pairs[n].value);
    assert k != pairs[n].key <==> i < n;
    if i < n {
      LastOfKeyPrefix(pairs, i);
      ToDictLastWins(pre, i);
      assert Find(d, k).Some? && d[Find(d, k).value].1 == pairs[i].value;
      PutOther(d, pairs[n].key, pairs[n].value, k);
    } else {
      PutValue(d, k, pairs[n].value);
    }
  }

  /** A dictionary survives the round trip through pairs unchanged. */
  lemma {:induction false} DictRoundTrip(d: seq<(string, string)>)
    requires UniqueKeys(d)
    ensures ToDict(FromDict(d)) == d
  {
    if d != [] {
      var n := |d| - 1;
      var pairs := FromDict(d);
      assert pairs[..n] == FromDict(d[..n]);
      DictRoundTrip(d[..n]);
      assert ToDict(pairs) == Put(d[..n], d[n].0, d[n].1);
      assert Find(d[..n], d[n].0).None? by {
        assert forall i :: 0 <= i < n ==> d[..n][i].0 == d[i].0 != d[n].0;
      }
      assert d[..n] + [(d[n].0, d[n].1)] == d;
    }
  }

  /** Pairs with distinct keys survive the round trip through a
      dictionary unchanged; pairs with a repeated key do not. */
  lemma PairsRoundTrip(pairs: seq<KeyValuePair>)
    ensures FromDict(ToDict(pairs)) == pairs <==> forall i, j :: 0 <= i < j < |pairs| ==> pairs[i].key != pairs[j].key
  {
    if forall i, j :: 0 <= i < j < |pairs| ==> pairs[i].key != pairs[j].key {
      DistinctPairsRoundTrip(pairs);
    } else {
      var i, j :| 0 <= i < j < |pairs| && pairs[i].key == pairs[j].key;
      assert |ToDict(pairs)| < |pairs| by {
        ToDictShrinks(pairs, i, j);
      }
    }
  }

  lemma {:induction false} DistinctPairsRoundTrip(pairs: seq<KeyValuePair>)
    requires forall i, j :: 0 <= i < j < |pairs| ==> pairs[i].key != pairs[j].key
    ensures FromDict(ToDict(pairs)) == pairs
  {
    if pairs != [] {
      var n := |pairs| - 1;
      DistinctPairsRoundTrip(pairs[..n]);
      var d := ToDict(pairs[..n]);
      assert FromDict(d) == pairs[..n];
      assert Find(d, pairs[n].key).None? by {
        forall i | 0 <= i < |d|
          ensures d[i].0 != pairs[n].key
        {
          assert FromDict(d)[i].key == d[i].0;
        }
      }
    }
  }

  /** A repeated key leaves the dictionary smaller than the list. */
  lemma {:induction false} ToDictShrinks(pairs: seq<KeyValuePair>, i: nat, j: nat)
    requires i < j < |pairs| && pairs[i].key == pairs[j].key
    ensures |ToDict(pairs)| < |pairs|
  {
    var n := |pairs| - 1;
    var pre := pairs[..n];
    if j < n {
      ToDictShrinks(pre, i, j);
    } else {
      assert pre[i].key == pairs[n].key;
      ToDictKeys(pre, pairs[n].key);
      assert ToDict(pairs) == Put(ToDict(pre), pairs[n].key, pairs[n].value);
    }
  }
}
