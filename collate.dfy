/** `collate_batch`: pad a batch of documents (lists of token-id sentences)
    into a zero-filled batch x max_doc_len x max_sent_len buffer with a 0/1
    mask of the real tokens, sentences cut at 25 tokens, then stack both
    buffers into (batch * max_doc_len) rows. */
module BatchCollation {
  import opened Common

  /** Sentences are cut at this many tokens. */
  const MaxTokens: nat := 25

  /** One dataset item: a document as lists of token ids, and its label. */
  datatype Item = Item(features: seq<seq<int>>, target: int)

  datatype Collated = Collated(
    padded: array2<int>,
    mask: array2<int>,
    labels: seq<int>,
    docLens: seq<nat>,
    maxDocLen: nat,
    maxSentLen: nat)

  /** Token k of sentence j of example i exists and lies under the cap. */
  predicate Present(batch: seq<Item>, i: int, j: int, k: int, cap: nat)
  {
    0 <= i < |batch| && 0 <= j < |batch[i].features| && 0 <= k < |batch[i].features[j]| && k < cap
  }

  /** The padded value of cell (i, j, k). */
  function TokenAt(batch: seq<Item>, i: int, j: int, k: int, cap: nat): int
  {
    if Present(batch, i, j, k, cap) then batch[i].features[j][k] else 0
  }

  /** The mask value of cell (i, j, k). */
  function MaskAt(batch: seq<Item>, i: int, j: int, k: int, cap: nat): int
  {
    if Present(batch, i, j, k, cap) then 1 else 0
  }

  /** The row that cell (i, j) of a rows x width grid lands in when the
      grid is stacked example by example. */
  function FlatRow(i: nat, j: nat, rows: nat, width: nat): (r: nat)
    requires i < rows && j < width
    ensures r < rows * width
    ensures r / width == i && r % width == j
  {
    FlatRowFacts(i, j, rows, width);
    i * width + j
  }

  lemma FlatRowFacts(i: nat, j: nat, rows: nat, width: nat)
    requires i < rows && j < width
    ensures i * width + j < rows * width
    ensures (i * width + j) / width == i && (i * width + j) % width == j
  {
    var r := i * width + j;
    MulAtLeast(rows - i, width);
    assert rows * width == i * width + (rows - i) * width;
    var q, m := r / width, r % width;
    assert q * width + m == r;
    assert (q - i) * width == j - m;
    if q > i {
      MulAtLeast(q - i, width);
    } else if q < i {
      MulAtLeast(i - q, width);
    }
  }

  lemma MulAtLeast(n: int, width: nat)
    requires n >= 1
    ensures n * width >= width
  {
    assert n * width == width + (n - 1) * width;
  }

  /** The innermost loop: the tokens of sentence j of example i, up to the
      cap, go into the buffer and the mask gets a 1 there. */
  method FillSentence(batch: seq<Item>, i: nat, j: nat, padded: array3<int>, mask: array3<int>)
    requires i < |batch| && j < |batch[i].features|
    requires padded.Length0 == mask.Length0 == |batch|
    requires j < padded.Length1 == mask.Length1
    requires padded.Length2 == mask.Length2
    requires padded != mask
    modifies padded, mask
    ensures forall a, b, c :: 0 <= a < padded.Length0 && 0 <= b < padded.Length1 && 0 <= c < padded.Length2 ==>
      padded[a, b, c] == if a == i && b == j && c < |batch[i].features[j]| then batch[i].features[j][c]
                         else old(padded[a, b, c])
    ensures forall a, b, c :: 0 <= a < mask.Length0 && 0 <= b < mask.Length1 && 0 <= c < mask.Length2 ==>
      mask[a, b, c] == if a == i && b == j && c < |batch[i].features[j]| then 1 else old(mask[a, b, c])
  {
    var sentence := batch[i].features[j];
    for k := 0 to |sentence|
      invariant forall a, b, c :: 0 <= a < padded.Length0 && 0 <= b < padded.Length1 && 0 <= c < padded.Length2 ==>
        padded[a, b, c] == if a == i && b == j && c < k then sentence[c] else old(padded[a, b, c])
      invariant forall a, b, c :: 0 <= a < mask.Length0 && 0 <= b < mask.Length1 && 0 <= c < mask.Length2 ==>
        mask[a, b, c] == if a == i && b == j && c < k then 1 else old(mask[a, b, c])
    {
      if k < padded.Length2 {
        padded[i, j, k] := sentence[k];
        mask[i, j, k] := 1;
      }
    }
  }

  /** The middle loop: every sentence of example i. */
  method FillExample(batch: seq<Item>, i: nat, padded: array3<int>, mask: array3<int>)
    requires i < |batch|
    requires padded.Length0 == mask.Length0 == |batch|
    requires |batch[i].features| <= padded.Length1 == mask.Length1
    requires padded.Length2 == mask.Length2
    requires padded != mask
    modifies padded, mask
    ensures forall a, b, c :: 0 <= a < padded.Length0 && 0 <= b < padded.Length1 && 0 <= c < padded.Length2 ==>
      padded[a, b, c] == if a == i && Present(batch, a, b, c, padded.Length2) then batch[a].features[b][c]
                         else old(padded[a, b, c])
    ensures forall a, b, c :: 0 <= a < mask.Length0 && 0 <= b < mask.Length1 && 0 <= c < mask.Length2 ==>
      mask[a, b, c] == if a == i && Present(batch, a, b, c, mask.Length2) then 1 else old(mask[a, b, c])
  {
    for j := 0 to |batch[i].features|
      invariant forall a, b, c :: 0 <= a < padded.Length0 && 0 <= b < padded.Length1 && 0 <= c < padded.Length2 ==>
        padded[a, b, c] == if a == i && b < j && Present(batch, a, b, c, padded.Length2) then batch[a].features[b][c]
                           else old(padded[a, b, c])
      invariant forall a, b, c :: 0 <= a < mask.Length0 && 0 <= b < mask.Length1 && 0 <= c < mask.Length2 ==>
        mask[a, b, c] == if a == i && b < j && Present(batch, a, b, c, mask.Length2) then 1 else old(mask[a, b, c])
    {
      FillSentence(batch, i, j, padded, mask);
    }
  }

  /** The outer loop: every example of the batch. */
  method FillBatch(batch: seq<Item>, padded: array3<int>, mask: array3<int>)
    requires padded.Length0 == mask.Length0 == |batch|
    requires forall i :: 0 <= i < |batch| ==> |batch[i].features| <= padded.Length1
    requires padded.Length1 == mask.Length1 && padded.Length2 == mask.Length2
    requires padded != mask
    modifies padded, mask
    ensures forall a, b, c :: 0 <= a < padded.Length0 && 0 <= b < padded.Length1 && 0 <= c < padded.Length2 ==>
      padded[a, b, c] == if Present(batch, a, b, c, padded.Length2) then batch[a].features[b][c]
                         else old(padded[a, b, c])
    ensures forall a, b, c :: 0 <= a < mask.Length0 && 0 <= b < mask.Length1 && 0 <= c < mask.Length2 ==>
      mask[a, b, c] == if Present(batch, a, b, c, mask.Length2) then 1 else old(mask[a, b, c])
  {
    for i := 0 to |batch|
      invariant forall a, b, c :: 0 <= a < padded.Length0 && 0 <= b < padded.Length1 && 0 <= c < padded.Length2 ==>
        padded[a, b, c] == if a < i && Present(batch, a, b, c, padded.Length2) then batch[a].features[b][c]
                           else old(padded[a, b, c])
      invariant forall a, b, c :: 0 <= a < mask.Length0 && 0 <= b < mask.Length1 && 0 <= c < mask.Length2 ==>
        mask[a, b, c] == if a < i && Present(batch, a, b, c, mask.Length2) then 1 else old(mask[a, b, c])
    {
      FillExample(batch, i, padded, mask);
    }
  }

  /** `np.vstack` of a 3-D buffer: its first two axes merged into rows, the
      rows of example 0 first. */
  method Vstack(a: array3<int>) returns (b: array2<int>)
    ensures b.Length0 == a.Length0 * a.Length1 && b.Length1 == a.Length2
    ensures forall i, j, k :: 0 <= i < a.Length0 && 0 <= j < a.Length1 && 0 <= k < a.Length2 ==>
      b[FlatRow(i, j, a.Length0, a.Length1), k] == a[i, j, k]
  {
    var rows, width, depth := a.Length0, a.Length1, a.Length2;
    b := new int[rows * width, depth];
    for i := 0 to rows
      invariant forall i', j', k :: 0 <= i' < i && 0 <= j' < width && 0 <= k < depth ==>
        b[FlatRow(i', j', rows, width), k] == a[i', j', k]
    {
      for j := 0 to width
        invariant forall i', j', k :: 0 <= i' < i && 0 <= j' < width && 0 <= k < depth ==>
          b[FlatRow(i', j', rows, width), k] == a[i', j', k]
        invariant forall j', k :: 0 <= j' < j && 0 <= k < depth ==>
          b[FlatRow(i, j', rows, width), k] == a[i, j', k]
      {
        var row := FlatRow(i, j, rows, width);
        for k := 0 to depth
          invariant forall i', j', k :: 0 <= i' < i && 0 <= j' < width && 0 <= k < depth ==>
            b[FlatRow(i', j', rows, width), k] == a[i', j', k]
          invariant forall j', k :: 0 <= j' < j && 0 <= k < depth ==>
            b[FlatRow(i, j', rows, width), k] == a[i, j', k]
          invariant forall k' :: 0 <= k' < k ==> b[row, k'] == a[i, j, k']
        {
          b[row, k] := a[i, j, k];
        }
      }
    }
  }

  /** The number of sentences of every example. */
  function DocLens(batch: seq<Item>): (r: seq<nat>)
    ensures |r| == |batch|
    ensures forall i :: 0 <= i < |batch| ==> r[i] == |batch[i].features|
  {
    seq(|batch|, i requires 0 <= i < |batch| => |batch[i].features|)
  }

  /** The length of every sentence of one example. */
  function SentLens(example: seq<seq<int>>): (r: seq<nat>)
    ensures |r| == |example|
    ensures forall j :: 0 <= j < |example| ==> r[j] == |example[j]|
  {
    seq(|example|, j requires 0 <= j < |example| => |example[j]|)
  }

  /** The longest sentence of the batch (the maximum of the per-example
      maxima). */
  function Longest(batch: seq<Item>): (n: nat)
    requires |batch| > 0 && forall i :: 0 <= i < |batch| ==> |batch[i].features| > 0
    ensures forall i, j :: 0 <= i < |batch| && 0 <= j < |batch[i].features| ==> |batch[i].features[j]| <= n
    ensures exists i, j :: 0 <= i < |batch| && 0 <= j < |batch[i].features| && |batch[i].features[j]| == n
  {
    var longest := seq(|batch|, i requires 0 <= i < |batch| => Max(SentLens(batch[i].features)));
    assert forall i, j :: 0 <= i < |batch| && 0 <= j < |batch[i].features| ==>
      SentLens(batch[i].features)[j] <= longest[i] <= Max(longest);
    var i :| 0 <= i < |batch| && longest[i] == Max(longest);
    var j :| 0 <= j < |batch[i].features| && SentLens(batch[i].features)[j] == longest[i];
    assert |batch[i].features[j]| == Max(longest);
    Max(longest)
  }

  /** `max_sent_len`: the longest sentence of the batch, capped at 25. */
  function MaxSentLen(batch: seq<Item>): (n: nat)
    requires |batch| > 0 && forall i :: 0 <= i < |batch| ==> |batch[i].features| > 0
    ensures n <= MaxTokens
    ensures forall i, j :: 0 <= i < |batch| && 0 <= j < |batch[i].features| ==>
      Min(|batch[i].features[j]|, MaxTokens) <= n
    ensures n == MaxTokens ==>
      exists i, j :: 0 <= i < |batch| && 0 <= j < |batch[i].features| && |batch[i].features[j]| >= MaxTokens
    ensures n < MaxTokens ==>
      exists i, j :: 0 <= i < |batch| && 0 <= j < |batch[i].features| && |batch[i].features[j]| == n
  {
    Min(MaxTokens, Longest(batch))
  }

  /** Lines 15-24: zero buffers of the given shape, filled cell by cell,
      then stacked. */
  method PadAndStack(batch: seq<Item>, maxDocLen: nat, maxSentLen: nat) returns (padded: array2<int>, mask: array2<int>)
    requires forall i :: 0 <= i < |batch| ==> |batch[i].features| <= maxDocLen
    ensures padded.Length0 == mask.Length0 == |batch| * maxDocLen
    ensures padded.Length1 == mask.Length1 == maxSentLen
    ensures forall i, j, k :: 0 <= i < |batch| && 0 <= j < maxDocLen && 0 <= k < maxSentLen ==>
      && padded[FlatRow(i, j, |batch|, maxDocLen), k] == TokenAt(batch, i, j, k, maxSentLen)
      && mask[FlatRow(i, j, |batch|, maxDocLen), k] == MaskAt(batch, i, j, k, maxSentLen)
  {
    var cells := new int[|batch|, maxDocLen, maxSentLen]((i, j, k) => 0);
    var marks := new int[|batch|, maxDocLen, maxSentLen]((i, j, k) => 0);
    FillBatch(batch, cells, marks);
    padded := Vstack(cells);
    mask := Vstack(marks);
  }

  method CollateBatch(batch: seq<Item>) returns (r: Result<Collated>)
    ensures r.Err? <==> |batch| == 0 || exists i :: 0 <= i < |batch| && |batch[i].features| == 0
    ensures r.Err? ==> r.error == ValueError
    ensures r.Ok? ==> r.value.labels == seq(|batch|, i requires 0 <= i < |batch| => batch[i].target)
    ensures r.Ok? ==> r.value.docLens == DocLens(batch)
    ensures r.Ok? ==> r.value.maxDocLen == Max(DocLens(batch))
    ensures r.Ok? ==> r.value.maxSentLen == MaxSentLen(batch)
    ensures r.Ok? ==>
      var c := r.value;
      && c.padded.Length0 == c.mask.Length0 == |batch| * c.maxDocLen
      && c.padded.Length1 == c.mask.Length1 == c.maxSentLen
      && forall i, j, k :: 0 <= i < |batch| && 0 <= j < c.maxDocLen && 0 <= k < c.maxSentLen ==>
           && c.padded[FlatRow(i, j, |batch|, c.maxDocLen), k] == TokenAt(batch, i, j, k, c.maxSentLen)
           && c.mask[FlatRow(i, j, |batch|, c.maxDocLen), k] == MaskAt(batch, i, j, k, c.maxSentLen)
  {
    if |batch| == 0 {
      return Err(ValueError);
    }
    if exists i :: 0 <= i < |batch| && |batch[i].features| == 0 {
      return Err(ValueError);
    }
    var maxSentLen := MaxSentLen(batch);
    var docLens := DocLens(batch);
    var maxDocLen := Max(docLens);
    var flatPadded, flatMask := PadAndStack(batch, maxDocLen, maxSentLen);
    var labels := seq(|batch|, i requires 0 <= i < |batch| => batch[i].target);
    r := Ok(Collated(flatPadded, flatMask, labels, docLens, maxDocLen, maxSentLen));
  }
}
