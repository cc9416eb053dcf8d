/** The greedy ("vanilla") oracle: for every summary sentence, the document
    sentence that scores best against it, the first one on ties. */
module GreedyAligner {
  import opened Common

  /** The scores of summary sentence `s` against every document sentence. */
  function ScoresAgainst(score: Scorer, s: string, doc: seq<string>): (r: seq<real>)
    ensures |r| == |doc|
    ensures forall j :: 0 <= j < |doc| ==> r[j] == score(s, doc[j])
  {
    seq(|doc|, j requires 0 <= j < |doc| => score(s, doc[j]))
  }

  /** The index a left-to-right scan keeps when it starts from a best score
      of -1.0 and index -1, and takes a new index only on a strictly greater
      score. */
  function FirstBest(xs: seq<real>): (r: int)
    ensures -1 <= r < |xs|
  {
    if |xs| == 0 then -1
    else
      var r := FirstBest(xs[..|xs| - 1]);
      var best := if r == -1 then -1.0 else xs[r];
      if xs[|xs| - 1] > best then |xs| - 1 else r
  }

  /** The scan yields -1 exactly when no score beats -1.0; otherwise it
      yields the smallest index whose score is the maximum. */
  lemma {:induction false} FirstBestIsFirstArgmax(xs: seq<real>)
    ensures FirstBest(xs) == -1 <==> forall j :: 0 <= j < |xs| ==> xs[j] <= -1.0
    ensures FirstBest(xs) >= 0 ==>
      && xs[FirstBest(xs)] > -1.0
      && (forall j :: 0 <= j < |xs| ==> xs[j] <= xs[FirstBest(xs)])
      && (forall j :: 0 <= j < FirstBest(xs) ==> xs[j] < xs[FirstBest(xs)])
  {
    if |xs| > 0 {
      var pre := xs[..|xs| - 1];
      FirstBestIsFirstArgmax(pre);
      assert forall j :: 0 <= j < |pre| ==> pre[j] == xs[j];
    }
  }

  /** With a metric whose values exceed -1.0 (ROUGE F lies in [0, 1]), the
      scan yields -1 only for an empty document. */
  lemma MinusOneOnlyForEmptyDocument(score: Scorer, s: string, doc: seq<string>)
    requires forall j :: 0 <= j < |doc| ==> score(s, doc[j]) > -1.0
    ensures FirstBest(ScoresAgainst(score, s, doc)) == -1 <==> |doc| == 0
    ensures |doc| > 0 ==> 0 <= FirstBest(ScoresAgainst(score, s, doc)) < |doc|
  {
    var xs := ScoresAgainst(score, s, doc);
    FirstBestIsFirstArgmax(xs);
    if |doc| > 0 {
      assert xs[0] > -1.0;
    }
  }

  /** The oracle of one (document, summary) pair: one index per summary
      sentence, found by scanning every document sentence. */
  method Align(score: Scorer, doc: seq<string>, summary: seq<string>) returns (oracle: seq<int>)
    ensures |oracle| == |summary|
    ensures forall i :: 0 <= i < |summary| ==>
      oracle[i] == FirstBest(ScoresAgainst(score, summary[i], doc))
  {
    oracle := [];
    for i := 0 to |summary|
      invariant |oracle| == i
      invariant forall p :: 0 <= p < i ==> oracle[p] == FirstBest(ScoresAgainst(score, summary[p], doc))
    {
      ghost var xs := ScoresAgainst(score, summary[i], doc);
      var bestScore := -1.0;
      var best := -1;
      for j := 0 to |doc|
        invariant best == FirstBest(xs[..j])
        invariant -1 <= best < j
        invariant bestScore == if best == -1 then -1.0 else xs[best]
      {
        assert xs[..j + 1][..j] == xs[..j];
        var s := score(summary[i], doc[j]);
        if s > bestScore {
          best := j;
          bestScore := s;
        }
      }
      assert xs[..|doc|] == xs;
      oracle := oracle + [best];
    }
  }

  /** `get_vanilla_oracles`: one oracle per (document, summary) pair, the
      pairs formed as by `zip`, each with one entry per summary sentence. */
  method VanillaOracles(score: Scorer, documents: seq<seq<string>>, summaries: seq<seq<string>>)
    returns (oracles: seq<seq<int>>)
    ensures |oracles| == Min(|documents|, |summaries|)
    ensures forall d :: 0 <= d < |oracles| ==> |oracles[d]| == |summaries[d]|
    ensures forall d, i :: 0 <= d < |oracles| && 0 <= i < |summaries[d]| ==>
      oracles[d][i] == FirstBest(ScoresAgainst(score, summaries[d][i], documents[d]))
  {
    oracles := [];
    var n := Min(|documents|, |summaries|);
    for d := 0 to n
      invariant |oracles| == d
      invariant forall e :: 0 <= e < d ==> |oracles[e]| == |summaries[e]|
      invariant forall e, i :: 0 <= e < d && 0 <= i < |summaries[e]| ==>
        oracles[e][i] == FirstBest(ScoresAgainst(score, summaries[e][i], documents[e]))
    {
      var oracle := Align(score, documents[d], summaries[d]);
      oracles := oracles + [oracle];
    }
  }
}
