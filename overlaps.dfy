/**
 * Overlap resolution as the entity recognizer and the date/time extractor
 * both perform it: sort the items by an order that puts earlier starts
 * first, then walk them keeping each item that starts at or after the end
 * of the last one kept, up to a cap.
 */
module Overlaps {
  import Sorting

  /**
   * How to read an item: its [start, end) range, the sort order, and the
   * most items a resolution keeps.
   */
  datatype Order<!T> = Order(start: T -> int, end: T -> int, less: (T, T) -> bool, cap: int)

  /** The order sorts by start first: an earlier start is always less. */
  ghost predicate StartFirst<T(!new)>(o: Order<T>) {
    forall x, y :: o.start(x) < o.start(y) ==> o.less(x, y)
  }

  /** Every item is a non-empty range at a non-negative offset. */
  ghost predicate Ranges<T(!new)>(o: Order<T>, es: seq<T>) {
    forall e :: e in es ==> 0 <= o.start(e) < o.end(e)
  }

  /** Kept items are in start order and pairwise disjoint. */
  ghost predicate Disjoint<T(!new)>(o: Order<T>, r: seq<T>) {
    forall x, y :: 0 <= x < y < |r| ==> o.end(r[x]) <= o.start(r[y])
  }

  /** Every item is kept, or starts inside a kept one. */
  ghost predicate Covered<T(!new)>(o: Order<T>, es: seq<T>, r: seq<T>) {
    forall e :: e in es ==> e in r || exists k :: 0 <= k < |r| && o.start(r[k]) <= o.start(e) < o.end(r[k])
  }

  /**
   * Every item starting before the last kept one ends is kept or starts
   * inside a kept one: what a pass stopped at the cap has covered.
   */
  ghost predicate CoveredToLast<T(!new)>(o: Order<T>, es: seq<T>, r: seq<T>) {
    r != [] ==> forall e :: e in es && o.start(e) < o.end(r[|r| - 1]) ==>
      e in r || exists k :: 0 <= k < |r| && o.start(r[k]) <= o.start(e) < o.end(r[k])
  }

  /** No item starting where a kept one starts sorts before it. */
  ghost predicate BestAtStart<T(!new)>(o: Order<T>, es: seq<T>, r: seq<T>) {
    forall k, e :: 0 <= k < |r| && e in es && o.start(e) == o.start(r[k]) ==> !o.less(e, r[k])
  }

  /** A non-empty input keeps something, and the first kept item starts no later than any input item. */
  ghost predicate FirstEarliest<T(!new)>(o: Order<T>, es: seq<T>, r: seq<T>) {
    es != [] ==> r != [] && forall e :: e in es ==> o.start(r[0]) <= o.start(e)
  }

  /** The result properties of overlap resolution over the input es. */
  ghost predicate Resolved<T(!new)>(o: Order<T>, es: seq<T>, r: seq<T>) {
    && |r| <= o.cap
    && (forall e :: e in r ==> e in es)
    && Disjoint(o, r)
    && BestAtStart(o, es, r)
    && (|r| < o.cap ==> Covered(o, es, r))
    && CoveredToLast(o, es, r)
    && FirstEarliest(o, es, r)
  }

  /** Every kept item is one of the first i sorted items. */
  ghost predicate KeptFrom<T(!new)>(o: Order<T>, a: seq<T>, i: int, result: seq<T>)
    requires 0 <= i <= |a|
  {
    forall e :: e in result ==> exists j :: 0 <= j < i && a[j] == e
  }

  /** maxEnd is the end of the last kept item (0 before any), and no kept item ends after it. */
  ghost predicate EndsBy<T(!new)>(o: Order<T>, result: seq<T>, maxEnd: int) {
    && (result != [] ==> maxEnd == o.end(result[|result| - 1]))
    && (forall x :: 0 <= x < |result| ==> o.end(result[x]) <= maxEnd)
  }

  /** Each of the first i sorted items is kept or starts inside a kept one. */
  ghost predicate CoveredUpTo<T(!new)>(o: Order<T>, a: seq<T>, i: int, result: seq<T>)
    requires 0 <= i <= |a|
  {
    forall j :: 0 <= j < i ==> a[j] in result || exists k :: 0 <= k < |result| && o.start(result[k]) <= o.start(a[j]) < o.end(result[k])
  }

  /**
   * The state of the filter pass after the first i sorted items: the
   * kept ones come from them, are disjoint, end by maxEnd and are each best
   * at their start; every item seen so far starts before maxEnd and is
   * kept or starts inside a kept one.
   */
  ghost predicate KeepInv<T(!new)>(o: Order<T>, a: seq<T>, i: int, result: seq<T>, maxEnd: int) {
    && 0 <= i <= |a|
    && KeptFrom(o, a, i, result)
    && (result == [] ==> maxEnd == 0 && i == 0)
    && EndsBy(o, result, maxEnd)
    && (forall j :: 0 <= j < i ==> o.start(a[j]) < maxEnd)
    && Disjoint(o, result)
    && BestAtStart(o, a, result)
    && CoveredUpTo(o, a, i, result)
  }

  lemma AcceptKeptFrom<T(!new)>(o: Order<T>, a: seq<T>, i: int, result: seq<T>)
    requires 0 <= i < |a| && KeptFrom(o, a, i, result)
    ensures KeptFrom(o, a, i + 1, result + [a[i]])
  {
    var r := result + [a[i]];
    forall x | x in r ensures exists j :: 0 <= j < i + 1 && a[j] == x {
      if x == a[i] {
        assert a[i] == x;
      } else {
        assert x in result;
        var j :| 0 <= j < i && a[j] == x;
        assert a[j] == x;
      }
    }
  }

  lemma AcceptDisjoint<T(!new)>(o: Order<T>, result: seq<T>, maxEnd: int, e: T)
    requires Disjoint(o, result) && EndsBy(o, result, maxEnd) && o.start(e) >= maxEnd && o.start(e) < o.end(e)
    ensures Disjoint(o, result + [e]) && EndsBy(o, result + [e], o.end(e))
  {
    var r := result + [e];
    forall x | 0 <= x < |r| ensures o.end(r[x]) <= o.end(e) {
      if x < |result| { assert r[x] == result[x]; }
    }
    forall x, y | 0 <= x < y < |r| ensures o.end(r[x]) <= o.start(r[y]) {
      assert r[x] == result[x];
      if y < |result| { assert r[y] == result[y]; }
    }
  }

  lemma AcceptBest<T(!new)>(o: Order<T>, a: seq<T>, i: int, result: seq<T>, maxEnd: int)
    requires Sorting.Preorder(o.less) && Sorting.SortedBy(a, o.less)
    requires 0 <= i < |a| && o.start(a[i]) >= maxEnd
    requires BestAtStart(o, a, result) && forall j :: 0 <= j < i ==> o.start(a[j]) < maxEnd
    ensures BestAtStart(o, a, result + [a[i]])
  {
    var r := result + [a[i]];
    forall k, x | 0 <= k < |r| && x in a && o.start(x) == o.start(r[k])
      ensures !o.less(x, r[k])
    {
      if k == |result| {
        var j :| 0 <= j < |a| && a[j] == x;
        if j > i {
          assert !o.less(a[j], a[i]);
        }
      } else {
        assert r[k] == result[k];
      }
    }
  }

  lemma AcceptCovered<T(!new)>(o: Order<T>, a: seq<T>, i: int, result: seq<T>)
    requires 0 <= i < |a| && CoveredUpTo(o, a, i, result)
    ensures CoveredUpTo(o, a, i + 1, result + [a[i]])
  {
    var r := result + [a[i]];
    forall j | 0 <= j < i + 1
      ensures a[j] in r || exists k :: 0 <= k < |r| && o.start(r[k]) <= o.start(a[j]) < o.end(r[k])
    {
      if j == i {
        assert r[|result|] == a[j];
      } else if a[j] in result {
        var k :| 0 <= k < |result| && result[k] == a[j];
        assert r[k] == a[j];
      } else {
        var k :| 0 <= k < |result| && o.start(result[k]) <= o.start(a[j]) < o.end(result[k]);
        assert r[k] == result[k];
      }
    }
  }

  /** Keeping a[i] when it starts at or after maxEnd keeps every property. */
  lemma KeepAccept<T(!new)>(o: Order<T>, a: seq<T>, i: int, result: seq<T>, maxEnd: int)
    requires Ranges(o, a) && Sorting.Preorder(o.less) && Sorting.SortedBy(a, o.less)
    requires KeepInv(o, a, i, result, maxEnd) && i < |a| && o.start(a[i]) >= maxEnd
    ensures KeepInv(o, a, i + 1, result + [a[i]], o.end(a[i]))
  {
    assert a[i] in a;
    AcceptKeptFrom(o, a, i, result);
    AcceptDisjoint(o, result, maxEnd, a[i]);
    AcceptBest(o, a, i, result, maxEnd);
    AcceptCovered(o, a, i, result);
  }

  /** Passing over a[i] when it starts before maxEnd keeps every property: it starts inside the last kept item. */
  lemma KeepReject<T(!new)>(o: Order<T>, a: seq<T>, i: int, result: seq<T>, maxEnd: int)
    requires Ranges(o, a) && StartFirst(o) && Sorting.SortedBy(a, o.less)
    requires KeepInv(o, a, i, result, maxEnd) && i < |a| && o.start(a[i]) < maxEnd
    ensures KeepInv(o, a, i + 1, result, maxEnd)
  {
    var last := result[|result| - 1];
    assert last in result;
    var p :| 0 <= p < i && a[p] == last;
    assert !o.less(a[i], a[p]);
    assert o.start(last) <= o.start(a[i]) < o.end(last);
  }

  /** After the last item, the kept ones cover the input. */
  lemma KeepDone<T(!new)>(o: Order<T>, a: seq<T>, result: seq<T>, maxEnd: int)
    requires KeepInv(o, a, |a|, result, maxEnd)
    ensures Covered(o, a, result)
  {
    forall e | e in a
      ensures e in result || exists k :: 0 <= k < |result| && o.start(result[k]) <= o.start(e) < o.end(result[k])
    {
      var j :| 0 <= j < |a| && a[j] == e;
    }
  }

  /** When the pass ends, at the cap or after the last item, the kept items resolve the input. */
  lemma KeepResolved<T(!new)>(o: Order<T>, a: seq<T>, i: int, result: seq<T>, maxEnd: int)
    requires KeepInv(o, a, i, result, maxEnd) && |result| <= o.cap
    requires |result| < o.cap ==> i == |a|
    requires StartFirst(o) && Sorting.SortedBy(a, o.less)
    requires a != [] ==> i > 0
    requires Leads(a, i, result)
    ensures Resolved(o, a, result)
  {
    forall e | e in a ensures o.start(a[0]) <= o.start(e) {
      var j :| 0 <= j < |a| && a[j] == e;
      if j > 0 {
        assert !o.less(a[j], a[0]);
      }
    }
    forall e | e in result ensures e in a {
      var j :| 0 <= j < i && a[j] == e;
    }
    if |result| < o.cap {
      KeepDone(o, a, result, maxEnd);
    }
    KeepToLast(o, a, i, result, maxEnd);
  }

  /** Items not yet seen start no earlier than the last kept one, so those starting before its end start inside it. */
  lemma KeepToLast<T(!new)>(o: Order<T>, a: seq<T>, i: int, result: seq<T>, maxEnd: int)
    requires KeepInv(o, a, i, result, maxEnd) && StartFirst(o) && Sorting.SortedBy(a, o.less)
    ensures CoveredToLast(o, a, result)
  {
    if result != [] {
      var last := result[|result| - 1];
      assert last in result;
      var p :| 0 <= p < i && a[p] == last;
      forall e | e in a && o.start(e) < o.end(last)
        ensures e in result || exists k :: 0 <= k < |result| && o.start(result[k]) <= o.start(e) < o.end(result[k])
      {
        var j :| 0 <= j < |a| && a[j] == e;
        if j >= i {
          assert !o.less(a[j], a[p]);
          assert o.start(result[|result| - 1]) <= o.start(e) < o.end(result[|result| - 1]);
        }
      }
    }
  }

  /** Once an item has been seen, the first sorted item is the first kept. */
  ghost predicate Leads<T>(a: seq<T>, i: int, result: seq<T>) {
    i > 0 ==> |a| > 0 && result != [] && result[0] == a[0]
  }

  /** Nothing is kept before the first item is seen. */
  lemma KeptNone<T(!new)>(o: Order<T>, a: seq<T>, i: int, result: seq<T>)
    requires 0 <= i <= |a| && KeptFrom(o, a, i, result)
    ensures result != [] ==> i > 0
  {
    if result != [] {
      assert result[0] in result;
    }
  }

  lemma LeadsAccept<T(!new)>(o: Order<T>, a: seq<T>, i: int, result: seq<T>)
    requires 0 <= i < |a| && Leads(a, i, result) && KeptFrom(o, a, i, result)
    ensures Leads(a, i + 1, result + [a[i]])
  {
    KeptNone(o, a, i, result);
  }

  lemma LeadsReject<T(!new)>(o: Order<T>, a: seq<T>, i: int, result: seq<T>, maxEnd: int)
    requires 0 <= i < |a| && Leads(a, i, result) && KeepInv(o, a, i, result, maxEnd)
    requires Ranges(o, a) && o.start(a[i]) < maxEnd
    ensures Leads(a, i + 1, result)
  {
    assert a[i] in a;
    KeptNone(o, a, i, result);
  }

  /**
   * The filter pass over the sorted items: keep an item when it starts
   * at or after the end of the last one kept, and stop at o.cap.
   */
  method KeepFirst<T(!new)>(o: Order<T>, a: array<T>) returns (result: seq<T>)
    requires 1 <= o.cap && StartFirst(o) && Sorting.Preorder(o.less)
    requires Ranges(o, a[..]) && Sorting.SortedBy(a[..], o.less)
    ensures Resolved(o, a[..], result)
  {
    ghost var s := a[..];
    result := [];
    var maxEnd := 0;
    var i := 0;
    while i < a.Length
      invariant |result| < o.cap
      invariant KeepInv(o, s, i, result, maxEnd)
      invariant Leads(s, i, result)
    {
      var done;
      result, maxEnd, done := KeepStep(o, a, s, i, result, maxEnd);
      if done {
        return;
      }
      i := i + 1;
    }
    KeepResolved(o, s, i, result, maxEnd);
  }

  /** One pass of the filter at a[i]: keep it or pass over it; done once o.cap items are kept. */
  method KeepStep<T(!new)>(o: Order<T>, a: array<T>, ghost s: seq<T>, i: int, result: seq<T>, maxEnd: int)
    returns (result': seq<T>, maxEnd': int, done: bool)
    requires 1 <= o.cap && StartFirst(o) && Sorting.Preorder(o.less)
    requires s == a[..] && Ranges(o, s) && Sorting.SortedBy(s, o.less)
    requires 0 <= i < a.Length && |result| < o.cap && KeepInv(o, s, i, result, maxEnd) && Leads(s, i, result)
    ensures done ==> Resolved(o, s, result')
    ensures !done ==> |result'| < o.cap && KeepInv(o, s, i + 1, result', maxEnd') && Leads(s, i + 1, result')
  {
    var e := a[i];
    if o.start(e) >= maxEnd {
      KeepAccept(o, s, i, result, maxEnd);
      LeadsAccept(o, s, i, result);
      result' := result + [e];
      maxEnd' := o.end(e);
      done := |result'| >= o.cap;
      if done {
        KeepResolved(o, s, i + 1, result', maxEnd');
      }
    } else {
      KeepReject(o, s, i, result, maxEnd);
      LeadsReject(o, s, i, result, maxEnd);
      result', maxEnd', done := result, maxEnd, false;
    }
  }

  /**
   * Sort the items in place, then keep the first non-overlapping ones; zero
   * or one item come back unchanged.
   */
  method Resolve<T(!new)>(o: Order<T>, items: seq<T>) returns (result: seq<T>)
    requires 1 <= o.cap && Sorting.Preorder(o.less) && StartFirst(o) && Ranges(o, items)
    ensures Resolved(o, items, result)
    ensures |items| <= 1 ==> result == items
  {
    if |items| <= 1 {
      return items;
    }
    var a := new T[|items|](k requires 0 <= k < |items| => items[k]);
    assert a[..] == items;
    Sorting.SortBy(a, o.less);
    forall e | e in a[..] ensures e in items {
      Sorting.PermMember(a[..], items, e);
    }
    result := KeepFirst(o, a);
    forall e | e in items ensures e in a[..] {
      Sorting.PermMember(a[..], items, e);
    }
  }
}
