# Oracle labels for topic-focused extractive summarization

This project is a Dafny model of the part of the summarization pipeline that
builds and consumes **oracle labels**. An oracle is the list of document
sentences that best reproduces a reference summary. The model covers:

- **Greedy oracles** (`GreedyAligner`). For each summary sentence, take the
  first document sentence with the highest score.
- **Beam-search oracles** (`BeamSearchAligner`, with the bounded beam in
  `BoundedBeam`). Round `i` extends every fragment in a beam of width 15 with
  one unused sentence taken from positions `|summary| .. |document|-1`. The
  fragment is scored against the first `i+1` summary sentences.
- **Permutation refinement** (`PermutationRefiner`, with `Permutations`
  enumerating orderings in the order of Python's `itertools.permutations`).
  An oracle with at most 9 indices is reordered to the first best-scoring
  ordering.
- **Oracle and negative sampling** (`NegativeSampler`). This builds the
  oracle index followed by `options[:num_indices-1]`, a prefix of the
  shuffled other sentence positions. Its length is the Python slice length
  (`Common.SliceLen`): the first `num_indices - 1` positions when that is
  not negative, and otherwise all but the last `1 - num_indices` of them.
- **The sentence-length bucket vector** (`SentenceLengthBuckets`).
- **Label collection, the dataset label map and the sequential sampler**
  (`OracleLabels`, `Datasets`).
- **Batch collation** (`BatchCollation`). It pads token ids into
  batch × max-doc-len × min(25, max-sent-len) buffers with a 0/1 mask, then
  stacks the example axis into rows.

The text similarity metric (ROUGE-1 F in the system) is a parameter
`Scorer = (string, string) -> real`. Every result holds for any scorer.
Documents and summaries arrive already split into sentences, and in the greedy
aligner already lemmatized.

Python behaviour is written out explicitly:

- Negative indices are valid from `-n` (`Common.ValidIndex`, `Common.Resolve`).
- A slice stop may run past the end (`Common.SliceLen`).
- `zip` stops at its shortest argument (`Common.Min`).
- An uncaught exception aborts the whole call. It is modelled as
  `Result.Err(IndexError | NameError | ValueError)`.

The model follows the code, including where its behaviour is surprising:

- The greedy aligner gives `-1` for an empty document; it does not raise.
- In the refiner, an `IndexError` escapes: only `ValueError` is caught. An
  oracle shorter than the summary therefore raises. An oracle longer than the
  summary is scored on its first `|summary|` positions.
- The beam search reads entry `[0]` of the final beam, which is not
  necessarily its best entry.
- The negative sampler silently takes fewer indices when the document is
  short; it signals nothing.

## Model

| member | source | states |
|---|---|---|
| GreedyAligner.FirstBest | utils.py:37-43 | the chosen position is -1 or a valid document position |
| GreedyAligner.FirstBestIsFirstArgmax | utils.py:37-43 | -1 exactly when no score exceeds -1.0; otherwise the chosen score exceeds -1.0, is a maximum, and every earlier score is strictly smaller (ties keep the first position) |
| GreedyAligner.MinusOneOnlyForEmptyDocument | utils.py:37-44 | with scores above -1.0, a summary sentence is aligned to -1 exactly when the document has no sentences |
| GreedyAligner.Align | utils.py:35-44 | one entry per summary sentence, each the first best-scoring document position for that sentence |
| GreedyAligner.VanillaOracles | utils.py:30-46 | one oracle per zipped (document, summary) pair, each equal to the per-sentence first argmax |
| Permutations.PermsAreRearrangements | utils.py:54 | every enumerated ordering is a rearrangement of the oracle (same multiset) |
| Permutations.IdentityComesFirst | utils.py:54-55 | the first enumerated ordering is the oracle itself |
| Permutations.EveryRearrangementIsEnumerated | utils.py:54 | every rearrangement of the oracle is among the enumerated orderings |
| Permutations.PermsCount | utils.py:53-54 | exactly n! orderings are enumerated for n indices |
| Permutations.Perms | utils.py:54 | `list(permutations(oracle))`; its meaning is stated by PermsAreRearrangements, EveryRearrangementIsEnumerated, IdentityComesFirst and PermsCount |
| PermutationRefiner.TotalScore | utils.py:56-58 | the summed score of an ordering; when it is defined is stated by PartialScore, and its maximisation by RefinementIsOptimal |
| PermutationRefiner.PartialScore | utils.py:56-58 | the score of an ordering is defined exactly when it has an entry for every summary sentence and each entry is a valid (possibly negative) document index |
| PermutationRefiner.RefineOracle | utils.py:53-61 | oracles of more than 9 indices are unchanged; otherwise IndexError exactly when some ordering holds an invalid index or is too short, and else the result is the first ordering of highest total score |
| PermutationRefiner.RefinementIsOptimal | utils.py:53-61 | the kept ordering is a rearrangement of the oracle and scores at least as high as every rearrangement, the original order included |
| PermutationRefiner.WellFormedOracleNeverFails | utils.py:53-61 | an oracle with one in-range index per summary sentence, as the beam search produces, never makes the refinement raise |
| PermutationRefiner.OptimizeBeamOracles | utils.py:48-65 | corrected loop: fails exactly when some document's oracle of at most 9 indices has a failing ordering; otherwise each zipped oracle is replaced by its refinement and the rest kept |
| PermutationRefiner.OptimizeAsWritten | utils.py:48-65 | the loop as written never changes an oracle: whenever it finishes, the list is returned untouched |
| PermutationRefiner.AsWrittenNeverRefines | utils.py:53-62 | as written, the call succeeds exactly when every remaining oracle has more than 9 indices |
| PermutationRefiner.AsWrittenCounterexample | utils.py:62 | one document, summary ["b"] and oracle [1] end in NameError |
| BoundedBeam.LowestAt | utils.py:86 | the position returned holds a lowest score, and every earlier entry scores strictly higher |
| BoundedBeam.Inserted | utils.py:86 | one `add`: the beam grows by one up to its width, and while there is room the entry is appended |
| BoundedBeam.InsertAll | utils.py:80-86 | a run of `add`s: the beam holds min(width, old size + number added) entries |
| BoundedBeam.InsertAllConcat | utils.py:77-86 | adding two runs one after the other is adding their concatenation, so the candidates of successive entries can be added to one beam |
| BoundedBeam.DropLowestKeepsOrder | utils.py:86 | dropping the lowest entry of an over-full beam keeps every dropped score at most every kept score |
| BoundedBeam.InsertedConserves | utils.py:86 | one `add` loses nothing: the entries kept and the entry dropped are the old entries plus the new one |
| BoundedBeam.InsertAllConserves | utils.py:80-86 | a run of `add`s loses nothing: kept plus dropped equals old plus added, as multisets |
| BoundedBeam.InsertAllSelects | utils.py:80-86 | entries are dropped only from a full beam, and every dropped score is at most every kept score |
| BoundedBeam.Selection | utils.py:76-87 | a split of the candidates into kept and dropped entries, with nothing dropped above anything kept, is a top selection: a candidate left out scores no higher than any kept entry, and each kept entry is a candidate |
| BoundedBeam.InsertAllBest | utils.py:76-87 | a fresh beam offered every candidate keeps a top selection of them |
| BoundedBeam.Beam.constructor | utils.py:73 | an empty beam of the given width |
| BoundedBeam.Beam.Add | utils.py:86 | the new entries are the old ones with one insertion; kept and dropped entries together are the old ones plus the new entry; the size grows to at most the width; a full beam drops its first lowest entry; every dropped score stays at most every kept score |
| BeamSearchAligner.CandidateExists | utils.py:80-81 | a fragment of `round` distinct eligible indices can be extended exactly when more than `round` positions lie in `[m, n)` |
| BeamSearchAligner.Range | utils.py:80 | the positions `m .. n-1` of the loop, and their number |
| BeamSearchAligner.ExtensionsStep | utils.py:80-86 | raising the loop bound by one adds the candidate for the new index exactly when that index is unused |
| BeamSearchAligner.ExtensionsEnumerate | utils.py:80-86 | the candidates of a fragment are one per unused eligible index: each appends such an index, and every such index has its candidate |
| BeamSearchAligner.AppendEligible | utils.py:84-85 | appending an unused eligible index keeps the indices distinct and eligible, one more of them |
| BeamSearchAligner.AppendText | utils.py:82 | the new text is the old text, a space and the appended sentence |
| BeamSearchAligner.ExtensionConsistent | utils.py:81-86 | a candidate of a consistent fragment is consistent one round later |
| BeamSearchAligner.AllExtensionsConsistent | utils.py:77-86 | every candidate of a consistent beam is consistent one round later |
| BeamSearchAligner.CandidateHasIndex | utils.py:80-81 | a fragment has a candidate only if some eligible index is unused |
| BeamSearchAligner.ExtensionsExist | utils.py:80-81 | a consistent fragment has a candidate exactly when more than `round` positions lie in `[len(summary), len(doc))` |
| BeamSearchAligner.AllExtensionsExist | utils.py:77-81 | a consistent beam has a candidate exactly when it is non-empty and more than `round` positions lie in that range |
| BeamSearchAligner.OfferedNone | utils.py:80 | before the first index nothing has been added |
| BeamSearchAligner.OfferedSkip | utils.py:81 | a used index adds nothing |
| BeamSearchAligner.OfferedInsert | utils.py:81-86 | an unused index adds its candidate after those of the lower indices |
| BeamSearchAligner.OfferedAll | utils.py:80 | when the loop ends, every candidate of the fragment has been added |
| BeamSearchAligner.Offer | utils.py:81-86 | the loop body: the beam stays valid and has been given the candidates of every index up to j |
| BeamSearchAligner.ExtendFragment | utils.py:80-86 | the beam ends as its old entries with every candidate of the fragment added in ascending index order; kept plus dropped entries equal old entries plus candidates, as multisets; nothing dropped scores above anything kept |
| BeamSearchAligner.OfferEntry | utils.py:77-86 | after entry e, the fresh beam has been given the candidates of entries 0 to e, in order |
| BeamSearchAligner.RoundSelects | utils.py:76-87 | a round keeps min(15, number of candidates) entries; no candidate left out scores above a kept one; each kept entry is consistent one round later; the beam is non-empty exactly when the old beam was and more than `round` positions lie in the range |
| BeamSearchAligner.NextRound | utils.py:76-87 | a fresh beam of width 15 given every candidate of every entry, in order, with the selection facts of RoundSelects |
| BeamSearchAligner.Start | utils.py:73-74 | the search state before the first round: the empty fragment with score 0 |
| BeamSearchAligner.Advance | utils.py:75-87 | one round takes the search state after i rounds to the state after i + 1 rounds |
| BeamSearchAligner.Search | utils.py:73-87 | after the loop, the beam holds the entries of `len(summary)` rounds, all consistent, and is empty exactly when the summary is non-empty and the document has fewer than twice as many sentences |
| BeamSearchAligner.AlignDocument | utils.py:70-90 | IndexError exactly when the final beam is empty, which is exactly when the summary is non-empty and the document has fewer than twice as many sentences; otherwise the entry read is entry `[0]` of the final beam, with `len(summary)` distinct indices from `[len(summary), len(doc))` and matching text and score |
| BeamSearchAligner.DocumentOracle | utils.py:88-91 | the oracle is the index list of that entry, with the same IndexError condition |
| BeamSearchAligner.BeamOracles | utils.py:67-93 | fails exactly when some zipped pair is too short as above; otherwise one oracle per pair, each the index list of entry `[0]` of its final beam |
| OracleLabels.KeptIndices | utils.py:98-104 | the kept positions are increasing, each has the field, and every position with the field is kept |
| OracleLabels.CollectLabels | bertdataset.py:62-68 | the available positions are exactly those whose oracle has the field, in order, and each label is that oracle's field |
| NegativeSampler.Pool | utils.py:105-106 | the candidate positions are distinct and are exactly the document positions other than the oracle's |
| NegativeSampler.RearrangedDistinct | utils.py:107 | shuffling keeps the pool distinct and keeps its members |
| NegativeSampler.Sample | utils.py:100-108 | one document's row: the oracle index followed by the slice of the shuffled pool; its meaning is stated by SampleShape |
| NegativeSampler.SampleShape | utils.py:101-108 | for a valid oracle index: the oracle comes first, followed by `SliceLen(n-1, num_indices-1)` distinct in-range positions (the Python slice length), none of them the oracle's |
| NegativeSampler.OracleAndRandomIndices | utils.py:95-110 | IndexError exactly when a kept oracle index is invalid for its document; otherwise the available positions are the oracles with the field, and each output is the oracle followed by a prefix of the shuffled pool |
| NegativeSampler.SamplerOutputShape | utils.py:98-109 | every output row starts with its oracle index and continues with distinct in-range positions other than it |
| SentenceLengthBuckets.Bits | utils.py:149 | the binary digits of the number: non-empty and each 0 or 1 |
| SentenceLengthBuckets.ValueOfBits | utils.py:149 | the digits read back as the number |
| SentenceLengthBuckets.PaddedValue | utils.py:149-151 | padding keeps at least 6 digits and keeps the value |
| SentenceLengthBuckets.Bucketize | utils.py:149-153 | `bucketize_sent_lens`; its meaning is stated by BucketizeMeaning |
| SentenceLengthBuckets.BucketizeMeaning | utils.py:148-153 | always 7 bits: the first is 1 exactly when the number is at least 64, and the other six encode the number mod 64 |
| Common.Max | bertdataset.py:14 | the maximum is a member of the list and bounds every entry |
| BatchCollation.FlatRow | bertdataset.py:23-24 | the stacked row of (example i, sentence j) lies inside the stack, and example and sentence can be recovered from it |
| BatchCollation.FillSentence | bertdataset.py:19-22 | writes the tokens before the cap and mask 1 for one sentence; every other cell is unchanged |
| BatchCollation.FillExample | bertdataset.py:18-22 | does the same for every sentence of one example |
| BatchCollation.FillBatch | bertdataset.py:17-22 | every cell of a present token (within the cap) gets that token and mask 1; every other cell keeps its previous value |
| BatchCollation.Vstack | bertdataset.py:23-24 | the stack has batch×docLen rows, and row i·docLen+j holds sentence j of example i |
| BatchCollation.Longest | bertdataset.py:11-12 | the longest sentence length of the batch: at least every sentence's length, and equal to one of them |
| BatchCollation.MaxSentLen | bertdataset.py:11-12 | at most 25 and at least every capped sentence length; when it is 25 some sentence has at least 25 tokens, and otherwise some sentence has exactly that many |
| BatchCollation.PadAndStack | bertdataset.py:15-24 | stacked padded ids and mask of the required shape, each cell equal to the token or 1 when present and 0 otherwise |
| BatchCollation.CollateBatch | bertdataset.py:7-29 | ValueError exactly when the batch or one of its examples is empty; otherwise labels and document lengths in batch order, the maximum document length, the capped sentence length, and the stacked buffers cell by cell |
| Datasets.LabelMap | bertdataset.py:51 | the keys are exactly the indices paired with a label |
| Datasets.LabelMapLastWins | bertdataset.py:51 | a repeated index keeps the label of its last occurrence |
| Datasets.LabelMapSize | bertdataset.py:51 | with distinct indices, the map has one entry per label, and each index maps to its own label |
| Datasets.BertDataset.constructor | bertdataset.py:49-51 | the dataset's labels are the index-to-label map |
| Datasets.BertDataset.Length | bertdataset.py:53-54 | the length is the number of distinct indexed labels |
| Datasets.SubsetSequentialSampler.constructor | bertdataset.py:38-39 | keeps the given index list |
| Datasets.SubsetSequentialSampler.Iterate | bertdataset.py:41-42 | yields the indices in their given order, each once |
| Datasets.SubsetSequentialSampler.Length | bertdataset.py:44-45 | the length is the number of indices |

## Left out

- Sentence splitting, lemmatization and BERT tokenization: documents and summaries are given as lists of sentence strings (utils.py:33-34, 50-51, 71-72, 105).
- The ROUGE metric is a scorer parameter. Its own `ValueError` (for example on an empty hypothesis) is not modelled, so the `except ValueError` at utils.py:63-64 never fires in the model.
- Floating-point arithmetic: scores are reals, and sums and comparisons are exact.
- beam.py is not part of this model. `BoundedBeam.Beam` is a model of a fixed-width beam that keeps the highest scores.
- BoundedBeam.Beam.Add: which of several equal lowest entries is dropped, and the order of entries, are choices of this model.
- BeamSearchAligner.AlignDocument: the entry read at `[0]` is entry `[0]` of this model's final beam, whose order is this model's insertion order; it is not claimed to have the highest score, because the real order depends on beam.py.
- The list of final beam scores collected in `get_beam_oracles` (utils.py:69, 92) is never returned and is not modelled.
- PermutationRefiner.OptimizeBeamOracles: returns a new list. It does not model in-place mutation of the caller's list, or the entries already replaced when a later document raises.
- `random.shuffle` is a parameter that returns a rearrangement of its input. The random distribution is not modelled.
- Oracles are maps from a field name to a sentence index. Any exception raised by the field lookup (utils.py:101-104, bertdataset.py:64-68) is modelled as a missing field.
- Integers are unbounded: numpy's fixed-width integer and float buffers, and the conversions to torch tensors (bertdataset.py:25-28), are not modelled.
- `train_test_split`, `SubsetRandomSampler` and the `DataLoader` wiring in `create_datasets` (bertdataset.py:70-101) are randomness and library plumbing and are not modelled; only label collection is.
- Datasets.LabelMap and the `BertDataset` constructor require at least as many indices as labels, so the IndexError the comprehension at bertdataset.py:51 raises for a shorter index list is not modelled; the callers pass lists of equal length.
- `BertDataset.__getitem__` (bertdataset.py:56-59) loads features from disk and is not modelled, and neither is the `data_dir` field.
- The other helpers of utils.py are outside the oracle-label core and are not modelled: `get_rouge`, `pad_and_mask`, `preprocess_sentence`, and the functions after line 155. The same goes for trainbert.py.

## Findings

| source | as written | input that shows it | evidently intended | confidence | as-written member | corrected member |
|---|---|---|---|---|---|---|
| utils.py:62 | `oracles[i] = best_option` uses a name `i` that the loop never binds, so a `NameError` is raised, which `except ValueError` does not catch | documents `[["a","b"]]`, summaries `[["b"]]`, oracles `[[1]]` | store the best ordering in the current document's entry | not executed; high, unless the star import of beam.py happens to define a global `i` | PermutationRefiner.AsWrittenCounterexample | PermutationRefiner.OptimizeBeamOracles |
