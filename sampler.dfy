/** `get_oracle_and_random_indices`: for every document whose oracle has
    the requested field, the oracle sentence index followed by up to
    `numIndices - 1` other sentence indices in shuffled order. */
module NegativeSampler {
  import opened Common
  import opened OracleLabels

  /** `list(range(n))`. */
  function Positions(n: nat): (r: seq<int>)
    ensures |r| == n
    ensures forall t :: 0 <= t < n ==> r[t] == t
  {
    seq(n, t requires 0 <= t < n => t)
  }

  /** `options` after `options.pop(drop)`: every sentence index but `drop`. */
  function Pool(n: nat, drop: nat): (r: seq<int>)
    requires drop < n
    ensures Distinct(r)
    ensures forall v :: v in r <==> 0 <= v < n && v != drop
  {
    var r := RemoveAt(Positions(n), drop);
    forall v | 0 <= v < n && v != drop
      ensures v in r
    {
      assert r[if v < drop then v else v - 1] == v;
    }
    r
  }

  /** A sequence without repeats has every value at most once in its
      multiset, and conversely. */
  lemma {:induction false} DistinctIffSingleCounts<T>(xs: seq<T>)
    ensures Distinct(xs) <==> forall v :: multiset(xs)[v] <= 1
  {
    if |xs| > 0 {
      var pre := xs[..|xs| - 1];
      var last := xs[|xs| - 1];
      DistinctIffSingleCounts(pre);
      assert xs == pre + [last];
      assert multiset(xs) == multiset(pre) + multiset{last};
      if Distinct(xs) {
        assert Distinct(pre);
        assert last !in pre;
      } else {
        var p, q :| 0 <= p < q < |xs| && xs[p] == xs[q];
        if q < |xs| - 1 {
          assert pre[p] == pre[q];
          assert !Distinct(pre);
          var v :| multiset(pre)[v] > 1;
          assert multiset(xs)[v] > 1;
        } else {
          assert pre[p] == last;
          assert multiset(pre)[last] >= 1;
          assert multiset(xs)[last] >= 2;
        }
      }
    }
  }

  /** Shuffling a sequence without repeats keeps it without repeats and
      keeps its values. */
  lemma RearrangedDistinct(xs: seq<int>, ys: seq<int>)
    requires Distinct(xs) && multiset(ys) == multiset(xs)
    ensures Distinct(ys)
    ensures forall v :: v in ys <==> v in xs
  {
    DistinctIffSingleCounts(xs);
    DistinctIffSingleCounts(ys);
    forall v ensures v in ys <==> v in xs {
      assert v in ys <==> v in multiset(ys);
      assert v in xs <==> v in multiset(xs);
    }
  }

  /** The list built for one document with `n` sentences and oracle index
      `o`: None when `pop` raises IndexError. `shuffled` is the order
      `random.shuffle` leaves the pool in. */
  function Sample(n: nat, o: int, numIndices: int, shuffled: seq<int> -> seq<int>): Option<seq<int>>
  {
    if !ValidIndex(n, o) then None
    else
      var pool := shuffled(Pool(n, Resolve(n, o)));
      Some([o] + pool[..SliceLen(|pool|, numIndices - 1)])
  }

  /** What a sample is: the oracle index first, then distinct sentence
      indices other than the oracle's, as many as the pool and the request
      allow. */
  lemma SampleShape(n: nat, o: int, numIndices: int, shuffled: seq<int> -> seq<int>)
    requires ValidIndex(n, o)
    requires multiset(shuffled(Pool(n, Resolve(n, o)))) == multiset(Pool(n, Resolve(n, o)))
    ensures Sample(n, o, numIndices, shuffled).Some?
    ensures var s := Sample(n, o, numIndices, shuffled).value;
      && s[0] == o
      && |s| == 1 + SliceLen(n - 1, numIndices - 1)
      && Distinct(s[1..])
      && forall t :: 1 <= t < |s| ==> 0 <= s[t] < n && s[t] != Resolve(n, o) && s[t] != o
  {
    var drop := Resolve(n, o);
    var pool := Pool(n, drop);
    var shuffledPool := shuffled(pool);
    RearrangedDistinct(pool, shuffledPool);
    assert |shuffledPool| == |multiset(shuffledPool)| == |multiset(pool)| == n - 1;
    var s := Sample(n, o, numIndices, shuffled).value;
    var taken := shuffledPool[..SliceLen(n - 1, numIndices - 1)];
    assert s[1..] == taken;
    forall t | 1 <= t < |s|
      ensures 0 <= s[t] < n && s[t] != drop && s[t] != o
    {
      assert s[t] == taken[t - 1] == shuffledPool[t - 1];
      assert shuffledPool[t - 1] in pool;
    }
  }

  /** The loop over (document, oracle) pairs. A document whose oracle lacks
      `key` is skipped; an oracle index outside the document makes `pop`
      raise IndexError, which aborts the call. `shuffle(d, pool)` is the
      order `random.shuffle` leaves document d's pool in. */
  method OracleAndRandomIndices<K>(documents: seq<seq<string>>, oracles: seq<map<K, int>>, numIndices: int,
                                   key: K, shuffle: (nat, seq<int>) -> seq<int>)
    returns (r: Result<(seq<seq<int>>, seq<nat>)>)
    requires forall d, xs :: multiset(shuffle(d, xs)) == multiset(xs)
    ensures r.Err? <==>
      (exists d :: d in KeptIndices(oracles, key, Min(|documents|, |oracles|))
         && !ValidIndex(|documents[d]|, oracles[d][key]))
    ensures r.Err? ==> r.error == IndexError
    ensures r.Ok? ==> r.value.1 == KeptIndices(oracles, key, Min(|documents|, |oracles|))
    ensures r.Ok? ==> |r.value.0| == |r.value.1|
    ensures r.Ok? ==> forall t :: 0 <= t < |r.value.0| ==>
      var d := r.value.1[t];
      Sample(|documents[d]|, oracles[d][key], numIndices, xs => shuffle(d, xs)) == Some(r.value.0[t])
  {
    var n := Min(|documents|, |oracles|);
    var out: seq<seq<int>> := [];
    var available: seq<nat> := [];
    for i := 0 to n
      invariant available == KeptIndices(oracles, key, i)
      invariant |out| == |available|
      invariant forall d :: d in available ==> ValidIndex(|documents[d]|, oracles[d][key])
      invariant forall t :: 0 <= t < |out| ==>
        var d := available[t];
        Sample(|documents[d]|, oracles[d][key], numIndices, xs => shuffle(d, xs)) == Some(out[t])
    {
      if key !in oracles[i] {
        continue;
      }
      var o := oracles[i][key];
      available := available + [i];
      var options := Positions(|documents[i]|);
      if !ValidIndex(|options|, o) {
        assert i in KeptIndices(oracles, key, n);
        return Err(IndexError);
      }
      options := RemoveAt(options, Resolve(|options|, o));
      options := shuffle(i, options);
      var indices := [o] + options[..SliceLen(|options|, numIndices - 1)];
      out := out + [indices];
    }
    r := Ok((out, available));
  }

  /** Every list the sampler returns has the shape `SampleShape` states. */
  lemma SamplerOutputShape<K>(documents: seq<seq<string>>, oracles: seq<map<K, int>>, numIndices: int,
                              key: K, shuffle: (nat, seq<int>) -> seq<int>, d: nat, s: seq<int>)
    requires forall e, xs :: multiset(shuffle(e, xs)) == multiset(xs)
    requires d < |documents| && d < |oracles| && key in oracles[d]
    requires Sample(|documents[d]|, oracles[d][key], numIndices, xs => shuffle(d, xs)) == Some(s)
    ensures s[0] == oracles[d][key]
    ensures |s| == 1 + SliceLen(|documents[d]| - 1, numIndices - 1)
    ensures Distinct(s[1..])
    ensures forall t :: 1 <= t < |s| ==> 0 <= s[t] < |documents[d]| && s[t] != oracles[d][key]
  {
    var n := |documents[d]|;
    var o := oracles[d][key];
    var f := xs => shuffle(d, xs);
    assert ValidIndex(n, o);
    assert multiset(f(Pool(n, Resolve(n, o)))) == multiset(Pool(n, Resolve(n, o)));
    SampleShape(n, o, numIndices, f);
  }
}
