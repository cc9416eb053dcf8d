/** Selecting the documents whose oracle carries a given field, shared by
    the negative sampler (utils.py) and the dataset builder
    (bertdataset.py). An oracle is modelled as a map from field to
    sentence index; a lookup of a missing field is the exception both
    callers catch and skip. */
module OracleLabels {

  /** Positions below `n` whose oracle has field `key`, in increasing
      order. */
  function KeptIndices<K>(oracles: seq<map<K, int>>, key: K, n: nat): (r: seq<nat>)
    requires n <= |oracles|
    ensures forall p, q :: 0 <= p < q < |r| ==> r[p] < r[q]
    ensures forall t :: 0 <= t < |r| ==> r[t] < n && key in oracles[r[t]]
    ensures forall d :: 0 <= d < n && key in oracles[d] ==> d in r
  {
    if n == 0 then []
    else KeptIndices(oracles, key, n - 1) + (if key in oracles[n - 1] then [n - 1] else [])
  }

  /** The loop of `create_datasets`: the label of every document whose
      oracle has field `key`, with the positions of those documents. */
  method CollectLabels<K>(oracles: seq<map<K, int>>, key: K) returns (labels: seq<int>, available: seq<nat>)
    ensures available == KeptIndices(oracles, key, |oracles|)
    ensures |labels| == |available|
    ensures forall t :: 0 <= t < |labels| ==> key in oracles[available[t]] && labels[t] == oracles[available[t]][key]
  {
    labels, available := [], [];
    for i := 0 to |oracles|
      invariant available == KeptIndices(oracles, key, i)
      invariant |labels| == |available|
      invariant forall t :: 0 <= t < |labels| ==> labels[t] == oracles[available[t]][key]
    {
      if key in oracles[i] {
        labels := labels + [oracles[i][key]];
        available := available + [i];
      }
    }
  }
}
