/** `bucketize_sent_lens`: a sentence length as a 7-entry indicator, an
    overflow flag (64 or more) followed by the six low binary digits. */
module SentenceLengthBuckets {

  /** `[int(x) for x in bin(n)[2:]]`: the binary digits of n, most
      significant first; "0" for zero. */
  function Bits(n: nat): (r: seq<int>)
    ensures |r| >= 1
    ensures forall t :: 0 <= t < |r| ==> 0 <= r[t] <= 1
  {
    if n < 2 then [n] else Bits(n / 2) + [n % 2]
  }

  /** The number a list of binary digits denotes, most significant first. */
  function Value(bs: seq<int>): int
  {
    if |bs| == 0 then 0 else Value(bs[..|bs| - 1]) * 2 + bs[|bs| - 1]
  }

  function Pow2(k: nat): (r: nat)
    ensures r >= 1
  {
    if k == 0 then 1 else 2 * Pow2(k - 1)
  }

  predicate BinaryDigits(bs: seq<int>)
  {
    forall t :: 0 <= t < |bs| ==> 0 <= bs[t] <= 1
  }

  /** `binary` after the padding step: six zeros in front when it has
      fewer than six digits. */
  function Padded(n: nat): seq<int>
  {
    var binary := Bits(n);
    if |binary| < 6 then [0, 0, 0, 0, 0, 0] + binary else binary
  }

  /** Python's `any` over a list of digits. */
  predicate AnySet(bs: seq<int>)
  {
    exists t :: 0 <= t < |bs| && bs[t] != 0
  }

  function Bucketize(n: nat): seq<int>
  {
    var padded := Padded(n);
    var big := if AnySet(padded[..|padded| - 6]) then 1 else 0;
    [big] + padded[|padded| - 6..]
  }

  lemma {:induction false} ValueOfBits(n: nat)
    ensures Value(Bits(n)) == n
  {
    if n >= 2 {
      ValueOfBits(n / 2);
      var b := Bits(n);
      assert b[..|b| - 1] == Bits(n / 2);
    }
  }

  lemma {:induction false} ValueOfConcat(a: seq<int>, b: seq<int>)
    ensures Value(a + b) == Value(a) * Pow2(|b|) + Value(b)
  {
    if |b| > 0 {
      var pre := b[..|b| - 1];
      ValueOfConcat(a, pre);
      assert (a + b)[..|a + b| - 1] == a + pre;
      calc {
        Value(a + b);
        Value(a + pre) * 2 + b[|b| - 1];
        (Value(a) * Pow2(|pre|) + Value(pre)) * 2 + b[|b| - 1];
        Value(a) * (Pow2(|pre|) * 2) + (Value(pre) * 2 + b[|b| - 1]);
        Value(a) * Pow2(|b|) + Value(b);
      }
    } else {
      assert a + b == a;
    }
  }

  lemma {:induction false} ValueRange(bs: seq<int>)
    requires BinaryDigits(bs)
    ensures 0 <= Value(bs) < Pow2(|bs|)
    ensures Value(bs) == 0 <==> forall t :: 0 <= t < |bs| ==> bs[t] == 0
  {
    if |bs| > 0 {
      var pre := bs[..|bs| - 1];
      ValueRange(pre);
      if Value(bs) == 0 {
        assert Value(pre) == 0 && bs[|bs| - 1] == 0;
        assert forall t :: 0 <= t < |pre| ==> bs[t] == pre[t];
      }
    }
  }

  lemma PaddedValue(n: nat)
    ensures |Padded(n)| >= 6
    ensures BinaryDigits(Padded(n))
    ensures Value(Padded(n)) == n
  {
    var binary := Bits(n);
    ValueOfBits(n);
    if |binary| < 6 {
      var zeros := [0, 0, 0, 0, 0, 0];
      ValueOfConcat(zeros, binary);
      ValueRange(zeros);
      assert Value(zeros) == 0;
      assert BinaryDigits(binary);
    }
  }

  lemma SplitBy64(n: nat, q: int, r: int)
    requires q >= 0 && 0 <= r < 64 && n == q * 64 + r
    ensures r == n % 64
    ensures n >= 64 <==> q != 0
  {
  }

  /** The indicator has seven 0/1 entries; the first is 1 exactly when
      n >= 64, and the other six are the binary digits of n mod 64. */
  lemma BucketizeMeaning(n: nat)
    ensures |Bucketize(n)| == 7
    ensures BinaryDigits(Bucketize(n))
    ensures Bucketize(n)[0] == if n >= 64 then 1 else 0
    ensures Value(Bucketize(n)[1..]) == n % 64
  {
    var padded := Padded(n);
    PaddedValue(n);
    var high := padded[..|padded| - 6];
    var low := padded[|padded| - 6..];
    assert padded == high + low;
    assert BinaryDigits(high) && BinaryDigits(low);
    ValueOfConcat(high, low);
    assert Pow2(|low|) == 64 by {
      assert |low| == 6;
      assert Pow2(6) == 64;
    }
    ValueRange(high);
    ValueRange(low);
    SplitBy64(n, Value(high), Value(low));
    assert Bucketize(n)[1..] == low;
    assert AnySet(high) <==> Value(high) != 0;
  }
}
