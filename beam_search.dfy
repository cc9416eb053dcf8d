/** `get_beam_oracles`: build an oracle one summary sentence at a time,
    keeping at most fifteen partial extracts per round. Only sentences
    after the first m (m = number of summary sentences) are eligible. */
module BeamSearchAligner {
  import opened Common
  import opened BoundedBeam

  /** The beam width used by the source (`Beam(15)`). */
  const BeamWidth: nat := 15

  /** `indices` holds exactly `round` pairwise distinct indices from the
      eligible range [m, n). */
  predicate EligibleIndices(indices: seq<int>, round: nat, m: nat, n: nat)
  {
    && |indices| == round
    && Distinct(indices)
    && forall t :: 0 <= t < |indices| ==> m <= indices[t] < n
  }

  /** The text of an extract: each chosen sentence preceded by a space, in
      the order chosen. */
  function TextOf(doc: seq<string>, indices: seq<int>): string
    requires forall t :: 0 <= t < |indices| ==> 0 <= indices[t] < |doc|
  {
    if |indices| == 0 then ""
    else TextOf(doc, indices[..|indices| - 1]) + " " + doc[indices[|indices| - 1]]
  }

  /** An entry of the beam after `round` rounds: eligible distinct indices,
      the text they spell, and (after the first round) the score of that
      text against the first `round` summary sentences. */
  predicate Consistent(score: Scorer, doc: seq<string>, summary: seq<string>, round: nat, e: Entry)
    requires round <= |summary|
  {
    && EligibleIndices(e.fragment.indices, round, |summary|, |doc|)
    && e.fragment.text == TextOf(doc, e.fragment.indices)
    && (round > 0 ==> e.score == score(e.fragment.text, Join(summary[..round])))
  }

  /** An unused eligible index exists exactly when the eligible range is
      larger than the number of indices already chosen. */
  lemma CandidateExists(indices: seq<int>, round: nat, m: nat, n: nat)
    requires EligibleIndices(indices, round, m, n)
    ensures (exists j :: m <= j < n && j !in indices) <==> n - m > round
  {
    var used := set t | 0 <= t < |indices| :: indices[t];
    var range := Range(m, n);
    DistinctCardinality(indices);
    assert used <= range;
    if n - m > round {
      if range <= used {
        SubsetCardinality(range, used);
        assert false;
      }
      var j :| j in range && j !in used;
      assert m <= j < n && j !in indices;
    } else if exists j :: m <= j < n && j !in indices {
      var j :| m <= j < n && j !in indices;
      assert used <= range - {j};
      SubsetCardinality(used, range - {j});
      assert false;
    }
  }

  /** The integers m, m+1, ..., n-1. */
  function Range(m: nat, n: nat): (r: set<int>)
    ensures forall j :: j in r <==> m <= j < n
    ensures |r| == if n < m then 0 else n - m
    decreases n
  {
    if n <= m then {} else Range(m, n - 1) + {n - 1}
  }

  lemma SubsetCardinality(a: set<int>, b: set<int>)
    requires a <= b
    ensures |a| <= |b|
  {
    assert b == a + (b - a);
  }

  /** The candidate made from `fragment` by appending document sentence
      j in round `round`: its text, its indices and its score against the
      summary prefix through position `round`. */
  function Extension(score: Scorer, doc: seq<string>, summary: seq<string>, round: nat,
                     fragment: Fragment, j: nat): Entry
    requires round < |summary| && j < |doc|
  {
    var text := fragment.text + " " + doc[j];
    Entry(Fragment(text, fragment.indices + [j]), score(text, Join(summary[..round + 1])))
  }

  /** The candidates for the unused eligible indices below `bound`, in
      ascending order of the appended index. */
  function ExtensionsBelow(score: Scorer, doc: seq<string>, summary: seq<string>, round: nat,
                           fragment: Fragment, bound: nat): seq<Entry>
    requires round < |summary| && (bound <= |summary| || bound <= |doc|)
    decreases bound
  {
    if bound <= |summary| then []
    else
      var j := bound - 1;
      ExtensionsBelow(score, doc, summary, round, fragment, j)
        + (if j in fragment.indices then [] else [Extension(score, doc, summary, round, fragment, j)])
  }

  /** The candidates below `bound` are exactly one per unused eligible
      index below `bound`: each appends such an index, and each such index
      has its candidate. */
  lemma {:induction false} ExtensionsEnumerate(score: Scorer, doc: seq<string>, summary: seq<string>, round: nat,
                                              fragment: Fragment, bound: nat)
    requires round < |summary| && (bound <= |summary| || bound <= |doc|)
    ensures var r := ExtensionsBelow(score, doc, summary, round, fragment, bound);
      && (forall j :: |summary| <= j < bound && j !in fragment.indices ==>
            Extension(score, doc, summary, round, fragment, j) in r)
      && (forall x :: x in r ==>
            exists j :: |summary| <= j < bound && j !in fragment.indices && x == Extension(score, doc, summary, round, fragment, j))
    decreases bound
  {
    if bound > |summary| {
      var j := bound - 1;
      ExtensionsEnumerate(score, doc, summary, round, fragment, j);
      var r := ExtensionsBelow(score, doc, summary, round, fragment, bound);
      var front := ExtensionsBelow(score, doc, summary, round, fragment, j);
      forall x | x in r
        ensures exists i :: |summary| <= i < bound && i !in fragment.indices && x == Extension(score, doc, summary, round, fragment, i)
      {
        if x !in front {
          assert j !in fragment.indices && x == Extension(score, doc, summary, round, fragment, j);
        }
      }
    }
  }

  /** Every candidate of one fragment (lines 80-86). */
  function Extensions(score: Scorer, doc: seq<string>, summary: seq<string>, round: nat, fragment: Fragment): seq<Entry>
    requires round < |summary|
  {
    ExtensionsBelow(score, doc, summary, round, fragment, |doc|)
  }

  /** Every candidate of every entry, in the order the round adds them
      (lines 77-86). */
  function AllExtensions(score: Scorer, doc: seq<string>, summary: seq<string>, round: nat, entries: seq<Entry>): seq<Entry>
    requires round < |summary|
  {
    if |entries| == 0 then []
    else AllExtensions(score, doc, summary, round, entries[..|entries| - 1])
           + Extensions(score, doc, summary, round, entries[|entries| - 1].fragment)
  }

  /** The beam's entries after `i` rounds: the start entry, then each round
      inserts every candidate of the previous beam into a fresh beam. */
  function Rounds(score: Scorer, doc: seq<string>, summary: seq<string>, i: nat): seq<Entry>
    requires i <= |summary|
  {
    if i == 0 then [Entry(Fragment("", []), 0.0)]
    else InsertAll(BeamWidth, [], AllExtensions(score, doc, summary, i - 1, Rounds(score, doc, summary, i - 1)))
  }

  /** The loop step of lines 80-86: raising the bound by one appends the
      candidate for the new index when that index is unused. */
  lemma ExtensionsStep(score: Scorer, doc: seq<string>, summary: seq<string>, round: nat,
                       fragment: Fragment, j: nat)
    requires round < |summary| && |summary| <= j < |doc|
    ensures ExtensionsBelow(score, doc, summary, round, fragment, j + 1)
      == if j in fragment.indices then ExtensionsBelow(score, doc, summary, round, fragment, j)
         else ExtensionsBelow(score, doc, summary, round, fragment, j) + [Extension(score, doc, summary, round, fragment, j)]
  {
  }

  /** Appending an unused eligible index keeps the list eligible. */
  lemma AppendEligible(indices: seq<int>, round: nat, m: nat, n: nat, j: int)
    requires EligibleIndices(indices, round, m, n)
    requires m <= j < n && j !in indices
    ensures EligibleIndices(indices + [j], round + 1, m, n)
  {
    var more := indices + [j];
    forall p, q | 0 <= p < q < |more|
      ensures more[p] != more[q]
    {
      assert more[p] == indices[p];
    }
  }

  /** Appending an index appends its sentence to the text. */
  lemma AppendText(doc: seq<string>, indices: seq<int>, j: int)
    requires forall t :: 0 <= t < |indices| ==> 0 <= indices[t] < |doc|
    requires 0 <= j < |doc|
    ensures TextOf(doc, indices + [j]) == TextOf(doc, indices) + " " + doc[j]
  {
    var more := indices + [j];
    assert more[..|more| - 1] == indices;
  }

  /** A candidate of a consistent fragment is consistent one round later. */
  lemma ExtensionConsistent(score: Scorer, doc: seq<string>, summary: seq<string>, round: nat,
                            fragment: Fragment, j: nat)
    requires round < |summary|
    requires EligibleIndices(fragment.indices, round, |summary|, |doc|)
    requires fragment.text == TextOf(doc, fragment.indices)
    requires |summary| <= j < |doc| && j !in fragment.indices
    ensures Consistent(score, doc, summary, round + 1, Extension(score, doc, summary, round, fragment, j))
  {
    AppendEligible(fragment.indices, round, |summary|, |doc|, j);
    AppendText(doc, fragment.indices, j);
  }

  /** Every candidate of a consistent beam is consistent one round
      later. */
  lemma {:induction false} AllExtensionsConsistent(score: Scorer, doc: seq<string>, summary: seq<string>, round: nat,
                                                  entries: seq<Entry>)
    requires round < |summary|
    requires forall k :: 0 <= k < |entries| ==> Consistent(score, doc, summary, round, entries[k])
    ensures forall x :: x in AllExtensions(score, doc, summary, round, entries) ==> Consistent(score, doc, summary, round + 1, x)
  {
    if |entries| > 0 {
      var front := entries[..|entries| - 1];
      var fragment := entries[|entries| - 1].fragment;
      AllExtensionsConsistent(score, doc, summary, round, front);
      ExtensionsEnumerate(score, doc, summary, round, fragment, |doc|);
      var more := Extensions(score, doc, summary, round, fragment);
      forall x | x in more
        ensures Consistent(score, doc, summary, round + 1, x)
      {
        var j :| |summary| <= j < |doc| && j !in fragment.indices && x == Extension(score, doc, summary, round, fragment, j);
        ExtensionConsistent(score, doc, summary, round, fragment, j);
      }
    }
  }

  /** Every candidate appends an unused eligible index. */
  lemma CandidateHasIndex(score: Scorer, doc: seq<string>, summary: seq<string>, round: nat, fragment: Fragment)
    requires round < |summary|
    requires |Extensions(score, doc, summary, round, fragment)| > 0
    ensures exists j :: |summary| <= j < |doc| && j !in fragment.indices
  {
    var more := ExtensionsBelow(score, doc, summary, round, fragment, |doc|);
    assert more == Extensions(score, doc, summary, round, fragment);
    ExtensionsEnumerate(score, doc, summary, round, fragment, |doc|);
    assert more[0] in more;
    var c :| |summary| <= c < |doc| && c !in fragment.indices && more[0] == Extension(score, doc, summary, round, fragment, c);
  }

  /** A consistent fragment has a candidate exactly when the eligible
      range is larger than the round. */
  lemma ExtensionsExist(score: Scorer, doc: seq<string>, summary: seq<string>, round: nat, fragment: Fragment)
    requires round < |summary|
    requires EligibleIndices(fragment.indices, round, |summary|, |doc|)
    ensures |Extensions(score, doc, summary, round, fragment)| > 0 <==> |doc| - |summary| > round
  {
    CandidateExists(fragment.indices, round, |summary|, |doc|);
    if |Extensions(score, doc, summary, round, fragment)| > 0 {
      CandidateHasIndex(score, doc, summary, round, fragment);
    }
    if |doc| - |summary| > round {
      var c :| |summary| <= c < |doc| && c !in fragment.indices;
      ExtensionsEnumerate(score, doc, summary, round, fragment, |doc|);
      assert Extension(score, doc, summary, round, fragment, c) in Extensions(score, doc, summary, round, fragment);
    }
  }

  /** A consistent beam has a candidate exactly when it is non-empty and
      the eligible range is larger than the round. */
  lemma {:induction false} AllExtensionsExist(score: Scorer, doc: seq<string>, summary: seq<string>, round: nat,
                                             entries: seq<Entry>)
    requires round < |summary|
    requires forall k :: 0 <= k < |entries| ==> Consistent(score, doc, summary, round, entries[k])
    ensures |AllExtensions(score, doc, summary, round, entries)| > 0 <==> |entries| > 0 && |doc| - |summary| > round
  {
    if |entries| > 0 {
      var front := entries[..|entries| - 1];
      AllExtensionsExist(score, doc, summary, round, front);
      ExtensionsExist(score, doc, summary, round, entries[|entries| - 1].fragment);
    }
  }

  /** The state of the innermost loop before index j: a beam that held
      `start` has been offered the candidates below j, in order. */
  ghost predicate Offered(score: Scorer, doc: seq<string>, summary: seq<string>, round: nat, fragment: Fragment,
                          j: nat, start: seq<Entry>, entries: seq<Entry>)
    requires round < |summary| && (j <= |summary| || j <= |doc|) && |start| <= BeamWidth
  {
    entries == InsertAll(BeamWidth, start, ExtensionsBelow(score, doc, summary, round, fragment, j))
  }

  /** Before the first index nothing has been offered. */
  lemma OfferedNone(score: Scorer, doc: seq<string>, summary: seq<string>, round: nat, fragment: Fragment,
                    start: seq<Entry>)
    requires round < |summary| && |start| <= BeamWidth
    ensures Offered(score, doc, summary, round, fragment, |summary|, start, start)
  {
    assert ExtensionsBelow(score, doc, summary, round, fragment, |summary|) == [];
  }

  /** Once the loop index passes the document's end, every candidate has
      been offered. */
  lemma OfferedAll(score: Scorer, doc: seq<string>, summary: seq<string>, round: nat, fragment: Fragment,
                   j: nat, start: seq<Entry>, entries: seq<Entry>)
    requires round < |summary| && |doc| <= j && (j <= |doc| || j == |summary|) && |start| <= BeamWidth
    requires Offered(score, doc, summary, round, fragment, j, start, entries)
    ensures entries == InsertAll(BeamWidth, start, Extensions(score, doc, summary, round, fragment))
  {
    if j != |doc| {
      assert ExtensionsBelow(score, doc, summary, round, fragment, j) == [];
      assert Extensions(score, doc, summary, round, fragment) == [];
    }
  }

  /** A used index adds no candidate. */
  lemma OfferedSkip(score: Scorer, doc: seq<string>, summary: seq<string>, round: nat, fragment: Fragment,
                    j: nat, after: nat, start: seq<Entry>, entries: seq<Entry>)
    requires round < |summary| && |summary| <= j < |doc| && after == j + 1 && |start| <= BeamWidth && j in fragment.indices
    requires Offered(score, doc, summary, round, fragment, j, start, entries)
    ensures Offered(score, doc, summary, round, fragment, after, start, entries)
  {
    ExtensionsStep(score, doc, summary, round, fragment, j);
  }

  /** An unused index adds its candidate, inserted after those before it. */
  lemma OfferedInsert(score: Scorer, doc: seq<string>, summary: seq<string>, round: nat, fragment: Fragment,
                      j: nat, after: nat, start: seq<Entry>, entries: seq<Entry>, e: Entry)
    requires round < |summary| && |summary| <= j < |doc| && after == j + 1 && |start| <= BeamWidth && j !in fragment.indices
    requires e.fragment == Fragment(fragment.text + " " + doc[j], fragment.indices + [j])
    requires e.score == score(e.fragment.text, Join(summary[..round + 1]))
    requires Offered(score, doc, summary, round, fragment, j, start, entries)
    ensures Offered(score, doc, summary, round, fragment, after, start, Inserted(BeamWidth, entries, e))
  {
    ExtensionsStep(score, doc, summary, round, fragment, j);
    assert e == Extension(score, doc, summary, round, fragment, j);
    InsertAllSnoc(BeamWidth, start, ExtensionsBelow(score, doc, summary, round, fragment, j), e);
  }

  /** The body of the innermost loop (lines 81-86): an unused index j
      goes into `next` as its candidate; a used one changes nothing. */
  method Offer(score: Scorer, doc: seq<string>, summary: seq<string>, round: nat,
               fragment: Fragment, j: nat, next: Beam, ghost start: seq<Entry>) returns (after: nat)
    requires round < |summary| && |summary| <= j < |doc| && |start| <= BeamWidth
    requires next.Valid() && next.capacity == BeamWidth
    requires Offered(score, doc, summary, round, fragment, j, start, next.entries)
    modifies next
    ensures after == j + 1
    ensures next.Valid()
    ensures Offered(score, doc, summary, round, fragment, after, start, next.entries)
  {
    after := j + 1;
    if j in fragment.indices {
      OfferedSkip(score, doc, summary, round, fragment, j, after, start, next.entries);
    } else {
      var text := fragment.text + " " + doc[j];
      var s := score(text, Join(summary[..round + 1]));
      var e := Entry(Fragment(text, fragment.indices + [j]), s);
      ghost var before := next.entries;
      next.Add(e);
      OfferedInsert(score, doc, summary, round, fragment, j, after, start, before, e);
    }
  }

  /** The innermost loop (lines 80-86): every unused eligible index j
      extends `fragment` by document sentence j, scored against the summary
      prefix through position `round`, and is offered to `next` in
      ascending order of j. The beam ends as its old entries with every
      candidate inserted in turn: each candidate and each old entry is
      either still held or among those dropped, and nothing dropped scores
      higher than anything held. */
  method ExtendFragment(score: Scorer, doc: seq<string>, summary: seq<string>, round: nat,
                        fragment: Fragment, next: Beam)
    requires round < |summary|
    requires next.Valid() && next.capacity == BeamWidth
    modifies next
    ensures next.Valid()
    ensures next.entries == InsertAll(BeamWidth, old(next.entries), Extensions(score, doc, summary, round, fragment))
    ensures var dropped := Dropped(BeamWidth, old(next.entries), Extensions(score, doc, summary, round, fragment));
      && multiset(next.entries) + multiset(dropped)
         == multiset(old(next.entries)) + multiset(Extensions(score, doc, summary, round, fragment))
      && forall p, q :: 0 <= p < |dropped| && 0 <= q < |next.entries| ==> dropped[p].score <= next.entries[q].score
  {
    var j := |summary|;
    ghost var start := next.entries;
    OfferedNone(score, doc, summary, round, fragment, start);
    while j < |doc|
      invariant |summary| <= j && (j <= |doc| || j == |summary|) && |start| <= BeamWidth
      invariant next.Valid() && next.capacity == BeamWidth
      invariant Offered(score, doc, summary, round, fragment, j, start, next.entries)
    {
      j := Offer(score, doc, summary, round, fragment, j, next, start);
    }
    OfferedAll(score, doc, summary, round, fragment, j, start, next.entries);
    InsertAllConserves(BeamWidth, start, Extensions(score, doc, summary, round, fragment));
    InsertAllSelects(BeamWidth, start, Extensions(score, doc, summary, round, fragment));
  }

  /** The outer loop body of one round (lines 77-86): the candidates of
      entry e go into `next` after those of the entries before it. */
  method OfferEntry(score: Scorer, doc: seq<string>, summary: seq<string>, round: nat, entries: seq<Entry>,
                    e: nat, next: Beam)
    requires round < |summary| && e < |entries|
    requires next.Valid() && next.capacity == BeamWidth
    requires next.entries == InsertAll(BeamWidth, [], AllExtensions(score, doc, summary, round, entries[..e]))
    modifies next
    ensures next.Valid()
    ensures next.entries == InsertAll(BeamWidth, [], AllExtensions(score, doc, summary, round, entries[..e + 1]))
  {
    ghost var done := AllExtensions(score, doc, summary, round, entries[..e]);
    ghost var more := Extensions(score, doc, summary, round, entries[e].fragment);
    assert entries[..e + 1][..e] == entries[..e];
    assert AllExtensions(score, doc, summary, round, entries[..e + 1]) == done + more;
    ExtendFragment(score, doc, summary, round, entries[e].fragment, next);
    InsertAllConcat(BeamWidth, [], done, more);
  }

  /** The beam one round produces is a best selection of the round's
      candidates: at most fifteen, nothing left out scoring higher than
      anything kept, each kept entry consistent one round later, and empty
      exactly when a round has no candidates. */
  lemma RoundSelects(score: Scorer, doc: seq<string>, summary: seq<string>, round: nat, entries: seq<Entry>,
                     kept: seq<Entry>)
    requires round < |summary|
    requires forall k :: 0 <= k < |entries| ==> Consistent(score, doc, summary, round, entries[k])
    requires kept == InsertAll(BeamWidth, [], AllExtensions(score, doc, summary, round, entries))
    ensures |kept| == Min(|AllExtensions(score, doc, summary, round, entries)|, BeamWidth)
    ensures forall x :: x in AllExtensions(score, doc, summary, round, entries) && x !in kept ==>
      forall q :: 0 <= q < |kept| ==> x.score <= kept[q].score
    ensures forall k :: 0 <= k < |kept| ==> Consistent(score, doc, summary, round + 1, kept[k])
    ensures |kept| > 0 <==> |entries| > 0 && |doc| - |summary| > round
  {
    InsertAllBest(BeamWidth, AllExtensions(score, doc, summary, round, entries), kept);
    AllExtensionsConsistent(score, doc, summary, round, entries);
    AllExtensionsExist(score, doc, summary, round, entries);
  }

  /** One round (lines 76-87): a fresh beam offered every candidate of
      every entry, in order. It keeps `min(15, #candidates)` of them, every
      candidate it dropped scores no higher than any it kept, and each kept
      entry is consistent one round later. */
  method NextRound(score: Scorer, doc: seq<string>, summary: seq<string>, round: nat, entries: seq<Entry>)
    returns (next: Beam)
    requires round < |summary|
    requires forall k :: 0 <= k < |entries| ==> Consistent(score, doc, summary, round, entries[k])
    ensures fresh(next) && next.Valid() && next.capacity == BeamWidth
    ensures next.entries == InsertAll(BeamWidth, [], AllExtensions(score, doc, summary, round, entries))
    ensures |next.entries| == Min(|AllExtensions(score, doc, summary, round, entries)|, BeamWidth)
    ensures forall x :: x in AllExtensions(score, doc, summary, round, entries) && x !in next.entries ==>
      forall q :: 0 <= q < |next.entries| ==> x.score <= next.entries[q].score
    ensures forall k :: 0 <= k < |next.entries| ==> Consistent(score, doc, summary, round + 1, next.entries[k])
    ensures |next.entries| > 0 <==> |entries| > 0 && |doc| - |summary| > round
  {
    next := new Beam(BeamWidth);
    for e := 0 to |entries|
      invariant fresh(next) && next.Valid() && next.capacity == BeamWidth
      invariant next.entries == InsertAll(BeamWidth, [], AllExtensions(score, doc, summary, round, entries[..e]))
    {
      OfferEntry(score, doc, summary, round, entries, e, next);
    }
    assert entries[..|entries|] == entries;
    RoundSelects(score, doc, summary, round, entries, next.entries);
  }

  /** The state of the search loop after `i` rounds: the beam holds
      `Rounds(i)`, every entry is consistent, and the beam is empty exactly
      when a round ran out of unused eligible indices. */
  ghost predicate Searched(score: Scorer, doc: seq<string>, summary: seq<string>, i: nat, entries: seq<Entry>)
    requires i <= |summary|
  {
    && entries == Rounds(score, doc, summary, i)
    && (forall k :: 0 <= k < |entries| ==> Consistent(score, doc, summary, i, entries[k]))
    && (|entries| > 0 <==> i == 0 || |doc| - |summary| >= i)
  }

  /** Round i of the search loop (line 75): the beam after i rounds
      becomes the beam after i + 1 rounds. */
  method Advance(score: Scorer, doc: seq<string>, summary: seq<string>, i: nat, beam: Beam)
    returns (next: Beam)
    requires i < |summary|
    requires Searched(score, doc, summary, i, beam.entries)
    ensures Searched(score, doc, summary, i + 1, next.entries)
  {
    next := NextRound(score, doc, summary, i, beam.entries);
  }

  /** The beam before the first round (lines 73-74): the empty fragment
      with score 0. */
  method Start(score: Scorer, doc: seq<string>, summary: seq<string>) returns (beam: Beam)
    ensures Searched(score, doc, summary, 0, beam.entries)
  {
    beam := new Beam(BeamWidth);
    beam.Add(Entry(Fragment("", []), 0.0));
  }

  /** The search loop of one document (lines 73-87): a beam holding the
      empty fragment, then m rounds. */
  method Search(score: Scorer, doc: seq<string>, summary: seq<string>) returns (beam: Beam)
    ensures Searched(score, doc, summary, |summary|, beam.entries)
  {
    beam := Start(score, doc, summary);
    for i := 0 to |summary|
      invariant Searched(score, doc, summary, i, beam.entries)
    {
      beam := Advance(score, doc, summary, i, beam);
    }
  }

  /** One document: m rounds of beam search, then the first entry of the
      final beam. Indexing the final beam raises IndexError when it is
      empty, which happens exactly when m > 0 and the document has fewer
      than 2m sentences (the eligible range runs out of unused indices). */
  method AlignDocument(score: Scorer, doc: seq<string>, summary: seq<string>) returns (r: Result<Entry>)
    ensures r.Err? <==> |Rounds(score, doc, summary, |summary|)| == 0
    ensures r.Err? <==> |summary| > 0 && |doc| < 2 * |summary|
    ensures r.Err? ==> r.error == IndexError
    ensures r.Ok? ==> r.value == Rounds(score, doc, summary, |summary|)[0]
    ensures r.Ok? ==> Consistent(score, doc, summary, |summary|, r.value)
  {
    var beam := Search(score, doc, summary);
    if |beam.entries| == 0 {
      return Err(IndexError);
    }
    r := Ok(beam.entries[0]);
  }

  /** `oracle` is the index list of the first entry of the beam after
      every round on `doc` against `summary`. */
  ghost predicate IsBeamOracle(score: Scorer, doc: seq<string>, summary: seq<string>, oracle: seq<int>)
  {
    var final := Rounds(score, doc, summary, |summary|);
    |final| > 0 && oracle == final[0].fragment.indices
  }

  /** The oracle of one document (line 89): the index list of the entry
      `AlignDocument` reads. */
  method DocumentOracle(score: Scorer, doc: seq<string>, summary: seq<string>) returns (r: Result<seq<int>>)
    ensures r.Err? <==> |summary| > 0 && |doc| < 2 * |summary|
    ensures r.Err? ==> r.error == IndexError
    ensures r.Ok? ==> EligibleIndices(r.value, |summary|, |summary|, |doc|)
    ensures r.Ok? ==> IsBeamOracle(score, doc, summary, r.value)
  {
    var found := AlignDocument(score, doc, summary);
    if found.Err? {
      return Err(found.error);
    }
    r := Ok(found.value.fragment.indices);
  }

  /** `get_beam_oracles`: the index list of each document's result, the
      pairs formed as by `zip`; one IndexError aborts the whole call. */
  method BeamOracles(score: Scorer, documents: seq<seq<string>>, summaries: seq<seq<string>>)
    returns (r: Result<seq<seq<int>>>)
    ensures r.Err? <==>
      (exists d :: 0 <= d < Min(|documents|, |summaries|)
         && |summaries[d]| > 0 && |documents[d]| < 2 * |summaries[d]|)
    ensures r.Err? ==> r.error == IndexError
    ensures r.Ok? ==> |r.value| == Min(|documents|, |summaries|)
    ensures r.Ok? ==> forall d :: 0 <= d < |r.value| ==>
      EligibleIndices(r.value[d], |summaries[d]|, |summaries[d]|, |documents[d]|)
    ensures r.Ok? ==> forall d :: 0 <= d < |r.value| ==> IsBeamOracle(score, documents[d], summaries[d], r.value[d])
  {
    var n := Min(|documents|, |summaries|);
    var oracles := [];
    for d := 0 to n
      invariant |oracles| == d
      invariant forall e :: 0 <= e < d ==> !(|summaries[e]| > 0 && |documents[e]| < 2 * |summaries[e]|)
      invariant forall e :: 0 <= e < d ==>
        EligibleIndices(oracles[e], |summaries[e]|, |summaries[e]|, |documents[e]|)
      invariant forall e :: 0 <= e < d ==> IsBeamOracle(score, documents[e], summaries[e], oracles[e])
    {
      var found := DocumentOracle(score, documents[d], summaries[d]);
      if found.Err? {
        return Err(found.error);
      }
      oracles := oracles + [found.value];
    }
    r := Ok(oracles);
  }
}
