/** `optimize_beam_oracles`: for an oracle of at most nine indices, try every
    ordering of its indices against the summary positions and keep the one
    with the highest summed score, the first such ordering on ties. */
module PermutationRefiner {
  import opened Common
  import opened Permutations

  /** Oracles longer than this are passed through unchanged. */
  const MaxRefinable: nat := 9

  /** Summed score of the first `n` summary positions of `option`: position
      j pairs summary sentence j with document sentence `option[j]`. None
      when one of those positions raises IndexError (the ordering is too
      short, or the index is outside the document even counting from the
      end). */
  function PartialScore(score: Scorer, doc: seq<string>, summary: seq<string>, option: seq<int>, n: nat)
    : (r: Option<real>)
    requires n <= |summary|
    ensures r.Some? <==> n <= |option| && forall j :: 0 <= j < n ==> ValidIndex(|doc|, option[j])
  {
    if n == 0 then Some(0.0)
    else
      match PartialScore(score, doc, summary, option, n - 1)
      case None => None
      case Some(t) =>
        if n - 1 < |option| && ValidIndex(|doc|, option[n - 1])
        then Some(t + score(summary[n - 1], doc[Resolve(|doc|, option[n - 1])]))
        else None
  }

  /** The list comprehension summed at lines 56 and 58. */
  function TotalScore(score: Scorer, doc: seq<string>, summary: seq<string>, option: seq<int>): Option<real>
  {
    PartialScore(score, doc, summary, option, |summary|)
  }

  /** `best` is the ordering the scan over `options` keeps: every ordering
      scores, none beats `best`, and every ordering before `best` scores
      strictly less. */
  predicate IsFirstBest(score: Scorer, doc: seq<string>, summary: seq<string>, options: seq<seq<int>>, best: seq<int>)
  {
    && (forall q :: 0 <= q < |options| ==> TotalScore(score, doc, summary, options[q]).Some?)
    && TotalScore(score, doc, summary, best).Some?
    && (exists k :: 0 <= k < |options| && options[k] == best
         && (forall q :: 0 <= q < |options| ==>
               TotalScore(score, doc, summary, options[q]).value <= TotalScore(score, doc, summary, best).value)
         && (forall q :: 0 <= q < k ==>
               TotalScore(score, doc, summary, options[q]).value < TotalScore(score, doc, summary, best).value))
  }

  /** Some ordering of `oracle` raises IndexError when it is scored. */
  predicate SomeOrderingFails(score: Scorer, doc: seq<string>, summary: seq<string>, oracle: seq<int>)
  {
    exists p :: p in Perms(oracle) && TotalScore(score, doc, summary, p).None?
  }

  /** The body of the `try` block for one document, up to the assignment of
      the kept ordering. */
  method RefineOracle(score: Scorer, doc: seq<string>, summary: seq<string>, oracle: seq<int>)
    returns (r: Result<seq<int>>)
    ensures |oracle| > MaxRefinable ==> r == Ok(oracle)
    ensures |oracle| <= MaxRefinable ==>
      (r.Err? <==> SomeOrderingFails(score, doc, summary, oracle))
    ensures r.Err? ==> r.error == IndexError
    ensures |oracle| <= MaxRefinable && r.Ok? ==> IsFirstBest(score, doc, summary, Perms(oracle), r.value)
  {
    if |oracle| > MaxRefinable {
      return Ok(oracle);
    }
    var options := Perms(oracle);
    IdentityComesFirst(oracle);
    var first := TotalScore(score, doc, summary, options[0]);
    if first.None? {
      assert options[0] in options;
      return Err(IndexError);
    }
    var bestOption := options[0];
    var bestScore := first.value;
    ghost var bestAt := 0;
    for k := 0 to |options|
      invariant 0 <= bestAt < |options| && options[bestAt] == bestOption
      invariant bestAt <= k
      invariant TotalScore(score, doc, summary, bestOption) == Some(bestScore)
      invariant forall q :: 0 <= q < k ==> TotalScore(score, doc, summary, options[q]).Some?
      invariant forall q :: 0 <= q < k ==> TotalScore(score, doc, summary, options[q]).value <= bestScore
      invariant forall q :: 0 <= q < bestAt ==> TotalScore(score, doc, summary, options[q]).value < bestScore
    {
      var s := TotalScore(score, doc, summary, options[k]);
      if s.None? {
        assert options[k] in options;
        return Err(IndexError);
      }
      if s.value > bestScore {
        bestScore := s.value;
        bestOption := options[k];
        bestAt := k;
      }
    }
    forall p | p in options
      ensures TotalScore(score, doc, summary, p).Some?
    {
      var q :| 0 <= q < |options| && options[q] == p;
    }
    r := Ok(bestOption);
  }

  /** What the refinement guarantees: the kept ordering rearranges the
      oracle's indices, and no rearrangement of them, the input ordering
      included, has a higher summed score. */
  lemma RefinementIsOptimal(score: Scorer, doc: seq<string>, summary: seq<string>, oracle: seq<int>, best: seq<int>)
    requires IsFirstBest(score, doc, summary, Perms(oracle), best)
    ensures multiset(best) == multiset(oracle)
    ensures forall ys :: multiset(ys) == multiset(oracle) ==>
      TotalScore(score, doc, summary, ys).Some? &&
      TotalScore(score, doc, summary, ys).value <= TotalScore(score, doc, summary, best).value
    ensures TotalScore(score, doc, summary, oracle).value <= TotalScore(score, doc, summary, best).value
  {
    var options := Perms(oracle);
    PermsAreRearrangements(oracle);
    var k :| 0 <= k < |options| && options[k] == best;
    assert best in options;
    forall ys | multiset(ys) == multiset(oracle)
      ensures TotalScore(score, doc, summary, ys).Some?
      ensures TotalScore(score, doc, summary, ys).value <= TotalScore(score, doc, summary, best).value
    {
      EveryRearrangementIsEnumerated(oracle, ys);
      var q :| 0 <= q < |options| && options[q] == ys;
    }
    assert multiset(oracle) == multiset(oracle);
  }

  /** An oracle with one in-range index per summary sentence, as the beam
      search produces, never makes the refinement raise. */
  lemma WellFormedOracleNeverFails(score: Scorer, doc: seq<string>, summary: seq<string>, oracle: seq<int>)
    requires |oracle| == |summary|
    requires forall t :: 0 <= t < |oracle| ==> 0 <= oracle[t] < |doc|
    ensures !SomeOrderingFails(score, doc, summary, oracle)
  {
    PermsAreRearrangements(oracle);
    forall p | p in Perms(oracle)
      ensures TotalScore(score, doc, summary, p).Some?
    {
      assert |p| == |multiset(p)| == |multiset(oracle)| == |oracle|;
      forall j | 0 <= j < |summary|
        ensures ValidIndex(|doc|, p[j])
      {
        assert p[j] in multiset(oracle);
      }
    }
  }

  /** The refinement with the kept ordering written back into the current
      document's entry (see the as-written model below). An IndexError
      escapes and aborts the whole call; oracles longer than nine indices,
      and entries past the shortest of the three lists, stay as they were. */
  method OptimizeBeamOracles(score: Scorer, documents: seq<seq<string>>, summaries: seq<seq<string>>,
                             oracles: seq<seq<int>>)
    returns (r: Result<seq<seq<int>>>)
    ensures r.Err? <==>
      (exists d :: 0 <= d < Min(Min(|documents|, |summaries|), |oracles|)
         && |oracles[d]| <= MaxRefinable
         && SomeOrderingFails(score, documents[d], summaries[d], oracles[d]))
    ensures r.Err? ==> r.error == IndexError
    ensures r.Ok? ==> |r.value| == |oracles|
    ensures r.Ok? ==> forall d :: 0 <= d < |oracles| ==>
      if d < Min(Min(|documents|, |summaries|), |oracles|) && |oracles[d]| <= MaxRefinable
      then IsFirstBest(score, documents[d], summaries[d], Perms(oracles[d]), r.value[d])
      else r.value[d] == oracles[d]
  {
    var n := Min(Min(|documents|, |summaries|), |oracles|);
    var result := oracles;
    for d := 0 to n
      invariant |result| == |oracles|
      invariant forall e :: 0 <= e < d ==>
        (|oracles[e]| > MaxRefinable || !SomeOrderingFails(score, documents[e], summaries[e], oracles[e]))
      invariant forall e :: 0 <= e < |oracles| ==>
        if e < d && |oracles[e]| <= MaxRefinable
        then IsFirstBest(score, documents[e], summaries[e], Perms(oracles[e]), result[e])
        else result[e] == oracles[e]
    {
      var refined := RefineOracle(score, documents[d], summaries[d], oracles[d]);
      if refined.Err? {
        return Err(refined.error);
      }
      result := result[d := refined.value];
    }
    r := Ok(result);
  }

  /** Lines 49-65 as written: the assignment at line 62 names `i`, which
      is not bound in this function, so reaching it raises NameError; that
      escapes the `except ValueError` clause and aborts the call. */
  function OptimizeAsWritten(score: Scorer, documents: seq<seq<string>>, summaries: seq<seq<string>>,
                             oracles: seq<seq<int>>, d: nat): (r: Result<seq<seq<int>>>)
    requires d <= Min(Min(|documents|, |summaries|), |oracles|)
    ensures r.Ok? ==> r.value == oracles
    decreases Min(Min(|documents|, |summaries|), |oracles|) - d
  {
    if d == Min(Min(|documents|, |summaries|), |oracles|) then Ok(oracles)
    else if |oracles[d]| > MaxRefinable then OptimizeAsWritten(score, documents, summaries, oracles, d + 1)
    else if SomeOrderingFails(score, documents[d], summaries[d], oracles[d]) then Err(IndexError)
    else Err(NameError)
  }

  /** As written, no oracle is ever refined: a call either returns the
      oracles untouched (every oracle has more than nine indices) or
      raises, and it raises as soon as one oracle has at most nine. */
  lemma {:induction false} AsWrittenNeverRefines(score: Scorer, documents: seq<seq<string>>,
                                                 summaries: seq<seq<string>>, oracles: seq<seq<int>>, d: nat)
    requires d <= Min(Min(|documents|, |summaries|), |oracles|)
    ensures OptimizeAsWritten(score, documents, summaries, oracles, d).Ok? <==>
      forall e :: d <= e < Min(Min(|documents|, |summaries|), |oracles|) ==> |oracles[e]| > MaxRefinable
    decreases Min(Min(|documents|, |summaries|), |oracles|) - d
  {
    if d < Min(Min(|documents|, |summaries|), |oracles|) && |oracles[d]| > MaxRefinable {
      AsWrittenNeverRefines(score, documents, summaries, oracles, d + 1);
    }
  }

  /** A concrete input: one document, a one-sentence summary and the oracle
      [1]. As written the call raises NameError, where the corrected method
      keeps the (only) ordering [1]. */
  lemma AsWrittenCounterexample(score: Scorer)
    ensures OptimizeAsWritten(score, [["a", "b"]], [["b"]], [[1]], 0) == Err(NameError)
  {
    var o: seq<int> := [1];
    assert Perms(o) == [[1]] by {
      assert RemoveAt(o, 0) == [];
      assert Perms(RemoveAt(o, 0)) == [[]];
      assert PermsFrom(o, 1) == [];
      assert Prepend(1, [[]])[0] == [1];
      assert PermsFrom(o, 0) == Prepend(1, [[]]) + PermsFrom(o, 1);
    }
    assert TotalScore(score, ["a", "b"], ["b"], [1]).Some?;
  }
}
