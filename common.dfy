/** Shared vocabulary of the oracle-construction model: the errors a Python
    call can raise and that escape to the caller, Python's list-index and
    slice conventions, and the pluggable similarity scorer. */
module Common {

  /** The exceptions the modelled Python code can raise. */
  datatype Error = IndexError | NameError | ValueError

  datatype Result<T> = Ok(value: T) | Err(error: Error)

  datatype Option<T> = None | Some(value: T)

  /** A similarity metric `score(hypothesis, reference)` (ROUGE-1 F in the
      source); the model never looks at its values, only compares them. */
  type Scorer = (string, string) -> real

  /** `xs[k]` is legal in Python for a list of length `n` exactly when
      -n <= k < n; a negative index counts from the end. */
  predicate ValidIndex(n: nat, k: int)
  {
    -(n as int) <= k < n
  }

  function Resolve(n: nat, k: int): (r: nat)
    requires ValidIndex(n, k)
    ensures r < n
    ensures k >= 0 ==> r == k
    ensures k < 0 ==> r + (-k) == n
  {
    if k < 0 then n + k else k
  }

  /** Length of `xs[:stop]` for a list of length `n`. */
  function SliceLen(n: nat, stop: int): (r: nat)
    ensures r <= n
    ensures stop >= 0 ==> r == if stop < n then stop else n
    ensures stop < 0 ==> r + (if -stop < n then -stop else n) == n
  {
    if stop >= 0 then (if stop < n then stop else n)
    else if -stop < n then n + stop else 0
  }

  /** `xs` without its element at position `i`. */
  function RemoveAt<T>(xs: seq<T>, i: nat): (r: seq<T>)
    requires i < |xs|
    ensures |r| == |xs| - 1
    ensures multiset(r) + multiset{xs[i]} == multiset(xs)
    ensures forall k :: 0 <= k < |r| ==> r[k] == if k < i then xs[k] else xs[k + 1]
  {
    assert xs == xs[..i] + [xs[i]] + xs[i + 1..];
    xs[..i] + xs[i + 1..]
  }

  /** `' '.join(ss)`. */
  function Join(ss: seq<string>): string
  {
    if |ss| == 0 then ""
    else if |ss| == 1 then ss[0]
    else Join(ss[..|ss| - 1]) + " " + ss[|ss| - 1]
  }

  function Min(a: int, b: int): int
  {
    if a < b then a else b
  }

  /** All elements of `xs` are pairwise distinct. */
  predicate Distinct<T(==)>(xs: seq<T>)
  {
    forall p, q :: 0 <= p < q < |xs| ==> xs[p] != xs[q]
  }

  /** A list without repeats has as many distinct values as elements. */
  lemma {:induction false} DistinctCardinality(xs: seq<int>)
    requires Distinct(xs)
    ensures |set t | 0 <= t < |xs| :: xs[t]| == |xs|
  {
    if |xs| > 0 {
      var pre := xs[..|xs| - 1];
      DistinctCardinality(pre);
      var s := set t | 0 <= t < |pre| :: pre[t];
      assert (set t | 0 <= t < |xs| :: xs[t]) == s + {xs[|xs| - 1]};
      assert xs[|xs| - 1] !in s;
    }
  }

  /** Largest element of a non-empty list of naturals (Python's `max`). */
  function Max(xs: seq<nat>): (m: nat)
    requires |xs| > 0
    ensures m in xs
    ensures forall k :: 0 <= k < |xs| ==> xs[k] <= m
  {
    if |xs| == 1 then xs[0]
    else
      var rest := Max(xs[1..]);
      if xs[0] < rest then rest else xs[0]
  }
}
