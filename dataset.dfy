/** The dataset objects of bertdataset.py: `BertDataset`, which keeps an
    index -> label map, and `SubsetSequentialSampler`, which yields a fixed
    list of indices in order. */
module Datasets {
  import opened Common

  /** `{indices[i]: labels[i] for i in range(len(labels))}`: entries are
      inserted in order, so a repeated index keeps its last label. */
  function LabelMap(indices: seq<int>, labels: seq<int>): (m: map<int, int>)
    requires |labels| <= |indices|
    ensures m.Keys == set t | 0 <= t < |labels| :: indices[t]
  {
    if |labels| == 0 then map[]
    else
      var n := |labels| - 1;
      var m := LabelMap(indices, labels[..n]);
      assert (set t | 0 <= t < |labels| :: indices[t]) == (set t | 0 <= t < n :: indices[t]) + {indices[n]};
      m[indices[n] := labels[n]]
  }

  /** Position t holds the last occurrence of its index among the first n. */
  predicate LastOccurrence(indices: seq<int>, n: nat, t: nat)
    requires t < n <= |indices|
  {
    forall u :: t < u < n ==> indices[u] != indices[t]
  }

  /** Each index maps to the label at its last occurrence. */
  lemma {:induction false} LabelMapLastWins(indices: seq<int>, labels: seq<int>, t: nat)
    requires |labels| <= |indices| && t < |labels|
    requires LastOccurrence(indices, |labels|, t)
    ensures indices[t] in LabelMap(indices, labels)
    ensures LabelMap(indices, labels)[indices[t]] == labels[t]
  {
    var n := |labels| - 1;
    if t < n {
      assert indices[n] != indices[t];
      assert LastOccurrence(indices, n, t);
      LabelMapLastWins(indices, labels[..n], t);
    }
  }

  /** With distinct indices every label is kept: the map has one entry per
      label, and index `indices[t]` maps to `labels[t]`. */
  lemma LabelMapSize(indices: seq<int>, labels: seq<int>)
    requires |labels| <= |indices| && Distinct(indices[..|labels|])
    ensures |LabelMap(indices, labels)| == |labels|
    ensures forall t :: 0 <= t < |labels| ==> LabelMap(indices, labels)[indices[t]] == labels[t]
  {
    var prefix := indices[..|labels|];
    DistinctCardinality(prefix);
    var m := LabelMap(indices, labels);
    assert m.Keys == set t | 0 <= t < |prefix| :: prefix[t];
    assert |m| == |m.Keys|;
    forall t | 0 <= t < |labels|
      ensures m[indices[t]] == labels[t]
    {
      forall u | t < u < |labels| ensures indices[u] != indices[t] {
        assert prefix[t] != prefix[u];
      }
      LabelMapLastWins(indices, labels, t);
    }
  }

  class BertDataset {
    var labels: map<int, int>

    constructor (indices: seq<int>, labels: seq<int>)
      requires |labels| <= |indices|
      ensures this.labels == LabelMap(indices, labels)
    {
      this.labels := LabelMap(indices, labels);
    }

    /** `__len__`. */
    function Length(): (n: nat)
      reads this
      ensures n == |labels|
    {
      |labels|
    }
  }

  class SubsetSequentialSampler {
    const indices: seq<int>

    constructor (indices: seq<int>)
      ensures this.indices == indices
    {
      this.indices := indices;
    }

    /** `__iter__`, drained: the indices, one at a time, in order. */
    method Iterate() returns (yielded: seq<int>)
      ensures yielded == indices
    {
      yielded := [];
      for t := 0 to |indices|
        invariant yielded == indices[..t]
      {
        yielded := yielded + [indices[t]];
      }
    }

    /** `__len__`. */
    function Length(): (n: nat)
      ensures n == |indices|
    {
      |indices|
    }
  }
}
