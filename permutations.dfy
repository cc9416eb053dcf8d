/** The enumeration order of Python's `itertools.permutations`: all
    orderings of a list's positions, in lexicographic order of the position
    tuples, so the identity ordering comes first. */
module Permutations {
  import opened Common

  /** `x` put in front of every list of `ps`, keeping their order. */
  function Prepend<T>(x: T, ps: seq<seq<T>>): (r: seq<seq<T>>)
    ensures |r| == |ps|
    ensures forall k :: 0 <= k < |ps| ==> r[k] == [x] + ps[k]
  {
    seq(|ps|, k requires 0 <= k < |ps| => [x] + ps[k])
  }

  /** `list(itertools.permutations(xs))`. */
  function Perms<T>(xs: seq<T>): seq<seq<T>>
    decreases |xs|, 1
  {
    if |xs| == 0 then [[]] else PermsFrom(xs, 0)
  }

  /** The permutations of `xs` whose first element comes from position `i`
      or later. */
  function PermsFrom<T>(xs: seq<T>, i: nat): seq<seq<T>>
    requires i <= |xs|
    decreases |xs|, 0, |xs| - i
  {
    if i == |xs| then []
    else Prepend(xs[i], Perms(RemoveAt(xs, i))) + PermsFrom(xs, i + 1)
  }

  function Factorial(n: nat): nat
  {
    if n == 0 then 1 else n * Factorial(n - 1)
  }

  /** Every enumerated ordering is a rearrangement of the input. */
  lemma {:induction false} PermsAreRearrangements<T>(xs: seq<T>)
    ensures forall p :: p in Perms(xs) ==> multiset(p) == multiset(xs)
    decreases |xs|, 1
  {
    if |xs| > 0 {
      PermsFromAreRearrangements(xs, 0);
    }
  }

  lemma {:induction false} PermsFromAreRearrangements<T>(xs: seq<T>, i: nat)
    requires i <= |xs|
    ensures forall p :: p in PermsFrom(xs, i) ==> multiset(p) == multiset(xs)
    decreases |xs|, 0, |xs| - i
  {
    if i < |xs| {
      var rest := RemoveAt(xs, i);
      PermsAreRearrangements(rest);
      PermsFromAreRearrangements(xs, i + 1);
      var head := Prepend(xs[i], Perms(rest));
      var tail := PermsFrom(xs, i + 1);
      assert PermsFrom(xs, i) == head + tail;
      forall p | p in PermsFrom(xs, i)
        ensures multiset(p) == multiset(xs)
      {
        if p in head {
          var k :| 0 <= k < |head| && head[k] == p;
          var q := Perms(rest)[k];
          assert q in Perms(rest);
          assert p == [xs[i]] + q;
          assert multiset(p) == multiset{xs[i]} + multiset(q);
        } else {
          assert p in tail;
        }
      }
    }
  }

  /** The first ordering enumerated is the input itself. */
  lemma {:induction false} IdentityComesFirst<T>(xs: seq<T>)
    ensures |Perms(xs)| > 0 && Perms(xs)[0] == xs
  {
    if |xs| > 0 {
      var rest := RemoveAt(xs, 0);
      IdentityComesFirst(rest);
      assert PermsFrom(xs, 0)[0] == [xs[0]] + Perms(rest)[0];
    }
  }

  /** Every rearrangement of the input is enumerated. */
  lemma {:induction false} EveryRearrangementIsEnumerated<T>(xs: seq<T>, ys: seq<T>)
    requires multiset(ys) == multiset(xs)
    ensures ys in Perms(xs)
    decreases |xs|
  {
    assert |ys| == |multiset(ys)| == |multiset(xs)| == |xs|;
    if |xs| > 0 {
      assert ys[0] in multiset(xs);
      var i :| 0 <= i < |xs| && xs[i] == ys[0];
      var rest := RemoveAt(xs, i);
      assert ys == [ys[0]] + ys[1..];
      assert multiset(ys[1..]) + multiset{ys[0]} == multiset(ys);
      assert multiset(ys[1..]) == multiset(ys) - multiset{ys[0]};
      assert multiset(rest) == multiset(xs) - multiset{xs[i]};
      EveryRearrangementIsEnumerated(rest, ys[1..]);
      var k :| 0 <= k < |Perms(rest)| && Perms(rest)[k] == ys[1..];
      assert Prepend(xs[i], Perms(rest))[k] == ys;
      PermsFromContains(xs, 0, i, ys);
    }
  }

  lemma {:induction false} PermsFromContains<T>(xs: seq<T>, k: nat, i: nat, p: seq<T>)
    requires k <= i < |xs|
    requires p in Prepend(xs[i], Perms(RemoveAt(xs, i)))
    ensures p in PermsFrom(xs, k)
    decreases i - k
  {
    if k < i {
      PermsFromContains(xs, k + 1, i, p);
    }
  }

  /** There are n! orderings of n positions. */
  lemma {:induction false} PermsCount<T>(xs: seq<T>)
    ensures |Perms(xs)| == Factorial(|xs|)
    decreases |xs|, 1
  {
    if |xs| > 0 {
      PermsFromCount(xs, 0);
    }
  }

  lemma {:induction false} PermsFromCount<T>(xs: seq<T>, i: nat)
    requires 0 < |xs| && i <= |xs|
    ensures |PermsFrom(xs, i)| == (|xs| - i) * Factorial(|xs| - 1)
    decreases |xs|, 0, |xs| - i
  {
    if i < |xs| {
      PermsCount(RemoveAt(xs, i));
      PermsFromCount(xs, i + 1);
      var f := Factorial(|xs| - 1);
      assert (|xs| - i) * f == f + (|xs| - (i + 1)) * f;
    }
  }
}
