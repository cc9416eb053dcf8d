/** The bounded beam the beam-search aligner keeps its hypotheses in: a
    container of (state, score) entries that never holds more than its
    capacity and, when an insertion overflows it, drops a lowest-scored
    entry. The source's own `Beam` class (beam.py) is not part of this
    model; this is the behaviour the aligner relies on. */
module BoundedBeam {
  import opened Common

  /** A partial extract: the text built so far and the document indices
      chosen, in the order they were chosen. */
  datatype Fragment = Fragment(text: string, indices: seq<int>)

  datatype Entry = Entry(fragment: Fragment, score: real)

  /** Position of the first lowest-scored entry. */
  function LowestAt(es: seq<Entry>): (k: nat)
    requires |es| > 0
    ensures k < |es|
    ensures forall j :: 0 <= j < |es| ==> es[k].score <= es[j].score
    ensures forall j :: 0 <= j < k ==> es[j].score > es[k].score
  {
    if |es| == 1 then 0
    else
      var k := LowestAt(es[..|es| - 1]);
      if es[|es| - 1].score < es[k].score then |es| - 1 else k
  }

  /** The entries after inserting `e` into a beam of width `capacity`:
      appended while there is room, otherwise the first lowest-scored of the
      old entries and `e` is dropped. */
  function Inserted(capacity: nat, entries: seq<Entry>, e: Entry): (r: seq<Entry>)
    requires |entries| <= capacity
    ensures |r| == Min(|entries| + 1, capacity)
    ensures |entries| < capacity ==> r == entries + [e]
  {
    var all := entries + [e];
    if |all| <= capacity then all else RemoveAt(all, LowestAt(all))
  }

  /** The entries after inserting each of `es` in turn. */
  function InsertAll(capacity: nat, entries: seq<Entry>, es: seq<Entry>): (r: seq<Entry>)
    requires |entries| <= capacity
    ensures |r| == Min(|entries| + |es|, capacity)
  {
    if |es| == 0 then entries
    else
      assert es == es[..|es| - 1] + [es[|es| - 1]];
      Inserted(capacity, InsertAll(capacity, entries, es[..|es| - 1]), es[|es| - 1])
  }

  /** Inserting one more entry after a list. */
  lemma InsertAllSnoc(capacity: nat, entries: seq<Entry>, es: seq<Entry>, e: Entry)
    requires |entries| <= capacity
    ensures InsertAll(capacity, entries, es + [e]) == Inserted(capacity, InsertAll(capacity, entries, es), e)
  {
    assert (es + [e])[..|es|] == es;
  }

  /** Inserting two lists one after the other is inserting their
      concatenation. */
  lemma {:induction false} InsertAllConcat(capacity: nat, entries: seq<Entry>, xs: seq<Entry>, ys: seq<Entry>)
    requires |entries| <= capacity
    ensures InsertAll(capacity, entries, xs + ys) == InsertAll(capacity, InsertAll(capacity, entries, xs), ys)
    decreases |ys|
  {
    if |ys| > 0 {
      var zs := xs + ys;
      var front, last := ys[..|ys| - 1], ys[|ys| - 1];
      assert zs[..|zs| - 1] == xs + front;
      assert zs[|zs| - 1] == last;
      var mid := InsertAll(capacity, entries, xs);
      InsertAllConcat(capacity, entries, xs, front);
      calc {
        InsertAll(capacity, entries, zs);
        Inserted(capacity, InsertAll(capacity, entries, xs + front), last);
        Inserted(capacity, InsertAll(capacity, mid, front), last);
        InsertAll(capacity, mid, ys);
      }
    } else {
      assert xs + ys == xs;
    }
  }

  /** Dropping the lowest of `all` keeps every dropped entry scored no
      higher than any held one. */
  lemma DropLowestKeepsOrder(dropped: seq<Entry>, all: seq<Entry>, k: nat)
    requires |all| > 0 && k == LowestAt(all)
    requires forall p, q :: 0 <= p < |dropped| && 0 <= q < |all| - 1 ==> dropped[p].score <= all[q].score
    ensures var kept, gone := RemoveAt(all, k), dropped + [all[k]];
      forall p, q :: 0 <= p < |gone| && 0 <= q < |kept| ==> gone[p].score <= kept[q].score
  {
    var kept, gone := RemoveAt(all, k), dropped + [all[k]];
    forall p, q | 0 <= p < |gone| && 0 <= q < |kept|
      ensures gone[p].score <= kept[q].score
    {
      var from := if q < k then q else q + 1;
      assert kept[q] == all[from];
      if p < |dropped| && from == |all| - 1 {
        assert dropped[p].score <= all[k].score;
      }
    }
  }

  /** The entry inserting `e` drops, if any: none while there is room,
      otherwise the first lowest-scored of the old entries and `e`. */
  function Evicted(capacity: nat, entries: seq<Entry>, e: Entry): seq<Entry>
    requires |entries| <= capacity
  {
    var all := entries + [e];
    if |all| <= capacity then [] else [all[LowestAt(all)]]
  }

  /** An insertion keeps or drops each of the old entries and `e`. */
  lemma InsertedConserves(capacity: nat, entries: seq<Entry>, e: Entry)
    requires |entries| <= capacity
    ensures multiset(Inserted(capacity, entries, e)) + multiset(Evicted(capacity, entries, e))
      == multiset(entries) + multiset{e}
  {
    var all := entries + [e];
    assert multiset(all) == multiset(entries) + multiset{e};
    if |all| > capacity {
      var k := LowestAt(all);
      assert multiset(RemoveAt(all, k)) + multiset{all[k]} == multiset(all);
    }
  }

  /** The entries dropped while inserting each of `es` in turn, in the
      order they were dropped. */
  function Dropped(capacity: nat, entries: seq<Entry>, es: seq<Entry>): seq<Entry>
    requires |entries| <= capacity
  {
    if |es| == 0 then []
    else
      var front := es[..|es| - 1];
      Dropped(capacity, entries, front) + Evicted(capacity, InsertAll(capacity, entries, front), es[|es| - 1])
  }

  /** The bookkeeping of one insertion: what was kept or dropped before,
      plus what the insertion kept or dropped, is everything offered. */
  lemma MultisetStep(entries: seq<Entry>, front: seq<Entry>, e: Entry, kept: seq<Entry>, dropped: seq<Entry>,
                     kept': seq<Entry>, evicted: seq<Entry>)
    requires multiset(kept) + multiset(dropped) == multiset(entries) + multiset(front)
    requires multiset(kept') + multiset(evicted) == multiset(kept) + multiset{e}
    ensures multiset(kept') + multiset(dropped + evicted) == multiset(entries) + multiset(front + [e])
  {
    calc {
      multiset(kept') + multiset(dropped + evicted);
      multiset(kept') + multiset(evicted) + multiset(dropped);
      multiset(kept) + multiset{e} + multiset(dropped);
      multiset(kept) + multiset(dropped) + multiset{e};
      multiset(entries) + multiset(front) + multiset{e};
      multiset(entries) + multiset(front + [e]);
    }
  }

  /** Every entry offered is either kept or dropped. */
  lemma {:induction false} InsertAllConserves(capacity: nat, entries: seq<Entry>, es: seq<Entry>)
    requires |entries| <= capacity
    ensures multiset(InsertAll(capacity, entries, es)) + multiset(Dropped(capacity, entries, es))
      == multiset(entries) + multiset(es)
  {
    if |es| > 0 {
      var front, e := es[..|es| - 1], es[|es| - 1];
      assert es == front + [e];
      InsertAllConserves(capacity, entries, front);
      var kept, dropped := InsertAll(capacity, entries, front), Dropped(capacity, entries, front);
      InsertedConserves(capacity, kept, e);
      var evicted := Evicted(capacity, kept, e);
      assert es[..|es| - 1] == front;
      assert InsertAll(capacity, entries, es) == Inserted(capacity, kept, e);
      assert Dropped(capacity, entries, es) == dropped + evicted;
      MultisetStep(entries, front, e, kept, dropped, Inserted(capacity, kept, e), evicted);
    }
  }

  /** One insertion keeps the selection property: if nothing dropped so
      far scores higher than anything held, the same holds afterwards. */
  lemma SelectStep(capacity: nat, kept: seq<Entry>, dropped: seq<Entry>, e: Entry)
    requires |kept| <= capacity
    requires |dropped| > 0 ==> |kept| == capacity
    requires forall p, q :: 0 <= p < |dropped| && 0 <= q < |kept| ==> dropped[p].score <= kept[q].score
    ensures var kept', dropped' := Inserted(capacity, kept, e), dropped + Evicted(capacity, kept, e);
      && (|dropped'| > 0 ==> |kept'| == capacity)
      && forall p, q :: 0 <= p < |dropped'| && 0 <= q < |kept'| ==> dropped'[p].score <= kept'[q].score
  {
    var all := kept + [e];
    if |all| > capacity {
      forall p, q | 0 <= p < |dropped| && 0 <= q < |all| - 1
        ensures dropped[p].score <= all[q].score
      {
        assert all[q] == kept[q];
      }
      DropLowestKeepsOrder(dropped, all, LowestAt(all));
    } else {
      assert dropped + [] == dropped;
    }
  }

  /** Inserting `es` keeps a best selection: nothing is dropped while
      there is room, and nothing dropped scores higher than anything
      kept. */
  lemma {:induction false} InsertAllSelects(capacity: nat, entries: seq<Entry>, es: seq<Entry>)
    requires |entries| <= capacity
    ensures |Dropped(capacity, entries, es)| > 0 ==> |InsertAll(capacity, entries, es)| == capacity
    ensures forall p, q :: 0 <= p < |Dropped(capacity, entries, es)| && 0 <= q < |InsertAll(capacity, entries, es)| ==>
      Dropped(capacity, entries, es)[p].score <= InsertAll(capacity, entries, es)[q].score
  {
    if |es| > 0 {
      var front, e := es[..|es| - 1], es[|es| - 1];
      InsertAllSelects(capacity, entries, front);
      var kept, dropped := InsertAll(capacity, entries, front), Dropped(capacity, entries, front);
      SelectStep(capacity, kept, dropped, e);
      assert InsertAll(capacity, entries, es) == Inserted(capacity, kept, e);
      assert Dropped(capacity, entries, es) == dropped + Evicted(capacity, kept, e);
    }
  }

  /** What a beam holds after it was offered `all`: everything it dropped
      scores no higher than anything it kept, and it kept only what it was
      offered. */
  lemma Selection(all: seq<Entry>, kept: seq<Entry>, dropped: seq<Entry>)
    requires multiset(kept) + multiset(dropped) == multiset(all)
    requires forall p, q :: 0 <= p < |dropped| && 0 <= q < |kept| ==> dropped[p].score <= kept[q].score
    ensures forall x :: x in all && x !in kept ==> forall q :: 0 <= q < |kept| ==> x.score <= kept[q].score
    ensures forall k :: 0 <= k < |kept| ==> kept[k] in all
  {
    forall x | x in all && x !in kept
      ensures forall q :: 0 <= q < |kept| ==> x.score <= kept[q].score
    {
      assert x in multiset(all);
      assert x !in multiset(kept);
      assert x in multiset(dropped);
      var p :| 0 <= p < |dropped| && dropped[p] == x;
    }
    forall k | 0 <= k < |kept|
      ensures kept[k] in all
    {
      assert kept[k] in multiset(all);
    }
  }

  /** Inserting `all` into an empty beam keeps a best selection of it:
      nothing left out scores higher than anything kept, and everything
      kept was offered. */
  lemma InsertAllBest(capacity: nat, all: seq<Entry>, kept: seq<Entry>)
    requires kept == InsertAll(capacity, [], all)
    ensures forall x :: x in all && x !in kept ==> forall q :: 0 <= q < |kept| ==> x.score <= kept[q].score
    ensures forall k :: 0 <= k < |kept| ==> kept[k] in all
  {
    InsertAllConserves(capacity, [], all);
    InsertAllSelects(capacity, [], all);
    Selection(all, kept, Dropped(capacity, [], all));
  }

  class Beam {
    const capacity: nat
    var entries: seq<Entry>
    /** Every entry ever dropped, in the order they were dropped. */
    ghost var evicted: seq<Entry>

    /** The beam never exceeds its capacity, drops only when full, and
        every entry it dropped scores no higher than any it still holds: it
        holds a best-`capacity` selection of everything added. */
    ghost predicate Valid()
      reads this
    {
      && |entries| <= capacity
      && (|evicted| > 0 ==> |entries| == capacity)
      && forall p, q :: 0 <= p < |evicted| && 0 <= q < |entries| ==> evicted[p].score <= entries[q].score
    }

    constructor (capacity: nat)
      ensures Valid()
      ensures this.capacity == capacity && entries == [] && evicted == []
    {
      this.capacity := capacity;
      entries := [];
      evicted := [];
    }

    /** Inserts `e`; if that takes the beam over capacity, drops the first
        lowest-scored entry, which may be `e` itself. */
    method Add(e: Entry)
      requires Valid()
      modifies this
      ensures Valid()
      ensures entries == Inserted(capacity, old(entries), e)
      ensures multiset(entries) + multiset(evicted) == multiset(old(entries)) + multiset(old(evicted)) + multiset{e}
      ensures |entries| == Min(|old(entries)| + 1, capacity)
      ensures |old(entries)| < capacity ==> entries == old(entries) + [e] && evicted == old(evicted)
      ensures |old(entries)| >= capacity ==>
        var all := old(entries) + [e];
        var k := LowestAt(all);
        entries == RemoveAt(all, k) && evicted == old(evicted) + [all[k]]
    {
      var all := entries + [e];
      assert multiset(all) == multiset(entries) + multiset{e};
      if |all| <= capacity {
        entries := all;
      } else {
        var k := LowestAt(all);
        var dropped := all[k];
        ghost var before := evicted;
        entries := RemoveAt(all, k);
        evicted := evicted + [dropped];
        assert multiset(entries) + multiset{dropped} == multiset(all);
        assert multiset(evicted) == multiset(before) + multiset{dropped};
        DropLowestKeepsOrder(before, all, k);
      }
    }
  }
}
