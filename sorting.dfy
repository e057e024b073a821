/**
 * Sorting an array in place by a comparison: a stable insertion sort.
 *
 * It stands for Go's slices.SortStableFunc and for the hand-written
 * insertion sorts, which keep tied elements in their input order, and for
 * slices.SortFunc and sort.Slice, which promise only a sorted permutation:
 * a stable outcome is one of the outcomes those allow.
 *
 * `less(x, y)` means cmp(x, y) < 0. The sort needs "not less" to be
 * transitive, which holds for every comparison built from the lexicographic
 * keys the library's callers use.
 */
module Sorting {
  /** less is a strict weak order: asymmetric, and "not less" is transitive. */
  ghost predicate Preorder<T(!new)>(less: (T, T) -> bool) {
    && (forall x, y :: less(x, y) ==> !less(y, x))
    && (forall x, y, z :: !less(x, y) && !less(y, z) ==> !less(x, z))
  }

  /** No element comes after one it is less than. */
  predicate SortedBy<T>(s: seq<T>, less: (T, T) -> bool) {
    forall x, y :: 0 <= x < y < |s| ==> !less(s[y], s[x])
  }

  /** Neither of x and y is less than the other. */
  predicate Tied<T>(less: (T, T) -> bool, x: T, y: T) {
    !less(x, y) && !less(y, x)
  }

  /** The elements of s tied with k, in their order in s. */
  function TiedWith<T>(s: seq<T>, k: T, less: (T, T) -> bool): seq<T> {
    if s == [] then []
    else TiedWith(s[..|s| - 1], k, less) + (if Tied(less, s[|s| - 1], k) then [s[|s| - 1]] else [])
  }

  /** t is s reordered stably: the elements tied with any given one come in the same order in both. */
  ghost predicate Stable<T(!new)>(s: seq<T>, t: seq<T>, less: (T, T) -> bool) {
    forall k :: TiedWith(t, k, less) == TiedWith(s, k, less)
  }

  /** Picking the tied elements distributes over concatenation. */
  lemma {:induction false} TiedWithConcat<T>(s: seq<T>, t: seq<T>, k: T, less: (T, T) -> bool)
    ensures TiedWith(s + t, k, less) == TiedWith(s, k, less) + TiedWith(t, k, less)
    decreases |t|
  {
    if t != [] {
      var n := |t| - 1;
      assert (s + t)[..|s + t| - 1] == s + t[..n] && (s + t)[|s + t| - 1] == t[n];
      TiedWithConcat(s, t[..n], k, less);
    } else {
      assert s + t == s;
    }
  }

  /** Elements all strictly greater than one tied with k include none tied with k. */
  lemma {:induction false} TiedWithNone<T(!new)>(t: seq<T>, x: T, k: T, less: (T, T) -> bool)
    requires Preorder(less) && Tied(less, x, k)
    requires forall j :: 0 <= j < |t| ==> less(x, t[j])
    ensures TiedWith(t, k, less) == []
  {
    if t != [] {
      TiedWithNone(t[..|t| - 1], x, k, less);
      if Tied(less, t[|t| - 1], k) {
        NotLessTrans(less, x, k, t[|t| - 1]);
      }
    }
  }

  /** Moving o[i] down to p, past elements it is less than, is stable. */
  lemma MoveStable<T(!new)>(o: seq<T>, p: nat, i: nat, less: (T, T) -> bool)
    requires Preorder(less) && p <= i < |o|
    requires forall k :: p <= k < i ==> less(o[i], o[k])
    ensures Stable(o, o[..p] + [o[i]] + o[p..i] + o[i + 1..], less)
  {
    var a, m, r := o[..p], o[p..i], o[i + 1..];
    assert o == a + m + [o[i]] + r;
    forall k ensures TiedWith(a + [o[i]] + m + r, k, less) == TiedWith(a + m + [o[i]] + r, k, less) {
      PassTied(a, m, o[i], r, k, less);
    }
  }

  /** An element moved in front of elements it is less than keeps its place among those tied with k. */
  lemma PassTied<T(!new)>(a: seq<T>, m: seq<T>, e: T, r: seq<T>, k: T, less: (T, T) -> bool)
    requires Preorder(less) && forall j :: 0 <= j < |m| ==> less(e, m[j])
    ensures TiedWith(a + [e] + m + r, k, less) == TiedWith(a + m + [e] + r, k, less)
  {
    TiedWith4(a, [e], m, r, k, less);
    TiedWith4(a, m, [e], r, k, less);
    assert TiedWith([e], k, less) == TiedWith([], k, less) + (if Tied(less, e, k) then [e] else []);
    if Tied(less, e, k) {
      TiedWithNone(m, e, k, less);
    }
  }

  /** Picking the tied elements of four concatenated parts. */
  lemma TiedWith4<T>(a: seq<T>, b: seq<T>, c: seq<T>, d: seq<T>, k: T, less: (T, T) -> bool)
    ensures TiedWith(a + b + c + d, k, less)
         == TiedWith(a, k, less) + TiedWith(b, k, less) + TiedWith(c, k, less) + TiedWith(d, k, less)
  {
    TiedWithConcat(a + b + c, d, k, less);
    TiedWithConcat(a + b, c, k, less);
    TiedWithConcat(a, b, k, less);
  }

  lemma NotLessTrans<T(!new)>(less: (T, T) -> bool, x: T, y: T, z: T)
    requires Preorder(less)
    requires !less(x, y) && !less(y, z)
    ensures !less(x, z)
  {
  }

  /** A sequence made of two parts gives them back by slicing. */
  lemma Parts<T>(s: seq<T>, x: seq<T>, z: seq<T>)
    requires s == x + z
    ensures s[..|x|] == x && s[|x|..] == z
  {
  }

  /** Moving the element at i to position p keeps the multiset. */
  lemma MovePerm<T>(s: seq<T>, p: nat, i: nat)
    requires p <= i < |s|
    ensures multiset(s[..p] + [s[i]] + s[p..i] + s[i + 1..]) == multiset(s)
  {
    assert s == s[..p] + s[p..i] + [s[i]] + s[i + 1..];
  }

  /** Inserting key at p into a sorted sequence, after every element key is not less than, keeps it sorted. */
  lemma InsertSorted<T(!new)>(t: seq<T>, p: nat, key: T, less: (T, T) -> bool)
    requires Preorder(less)
    requires p <= |t| && SortedBy(t, less)
    requires p > 0 ==> !less(key, t[p - 1])
    requires forall k :: p <= k < |t| ==> less(key, t[k])
    ensures SortedBy(t[..p] + [key] + t[p..], less)
  {
    var u := t[..p] + [key] + t[p..];
    forall x, y | 0 <= x < y < |u| ensures !less(u[y], u[x]) {
      if y < p {
        assert u[x] == t[x] && u[y] == t[y];
      } else if y == p {
        assert u[x] == t[x];
        if x < p - 1 {
          NotLessTrans(less, key, t[p - 1], t[x]);
        }
      } else if x == p {
        assert u[y] == t[y - 1];
      } else if x < p {
        assert u[x] == t[x] && u[y] == t[y - 1];
      } else {
        assert u[x] == t[x - 1] && u[y] == t[y - 1];
      }
    }
  }

  /** The sequence after one insertion pass, in terms of the one before. */
  lemma InsertStep<T(!new)>(o: seq<T>, cur: seq<T>, p: nat, i: nat, less: (T, T) -> bool)
    requires Preorder(less)
    requires p <= i < |o| && SortedBy(o[..i], less)
    requires cur == o[..p] + [o[i]] + o[p..i] + o[i + 1..]
    requires p > 0 ==> !less(o[i], o[p - 1])
    requires forall k :: p <= k < i ==> less(o[i], o[k])
    ensures SortedBy(cur[..i + 1], less) && cur[i + 1..] == o[i + 1..] && multiset(cur) == multiset(o)
    ensures Stable(o, cur, less)
  {
    MoveStable(o, p, i, less);
    var t := o[..i];
    assert o[..p] == t[..p] && o[p..i] == t[p..];
    MovePerm(o, p, i);
    InsertSorted(t, p, o[i], less);
    Parts(cur, t[..p] + [o[i]] + t[p..], o[i + 1..]);
  }

  /**
   * One insertion pass: a[i] moves down past every element it is less
   * than and lands at p, after the first one it is not less than.
   */
  method Shift<T>(a: array<T>, i: nat, less: (T, T) -> bool) returns (p: nat)
    requires i < a.Length
    modifies a
    ensures p <= i
    ensures a[..] == old(a[..p]) + [old(a[i])] + old(a[p..i]) + old(a[i + 1..])
    ensures p > 0 ==> !less(old(a[i]), old(a[p - 1]))
    ensures forall k :: p <= k < i ==> less(old(a[i]), old(a[k]))
  {
    var key := a[i];
    var j := i - 1;
    while j >= 0 && less(key, a[j])
      invariant -1 <= j <= i - 1
      invariant a[..j + 1] == old(a[..j + 1])
      invariant a[j + 2..i + 1] == old(a[j + 1..i])
      invariant a[i + 1..] == old(a[i + 1..])
      invariant forall k :: j + 1 <= k < i ==> less(key, old(a[k]))
    {
      a[j + 1] := a[j];
      j := j - 1;
    }
    a[j + 1] := key;
    p := j + 1;
    assert a[..] == a[..p] + [a[p]] + a[p + 1..i + 1] + a[i + 1..];
  }

  /** The array ends sorted by less, holds the same elements, and keeps tied elements in their order. */
  method SortBy<T(!new)>(a: array<T>, less: (T, T) -> bool)
    requires Preorder(less)
    modifies a
    ensures SortedBy(a[..], less) && multiset(a[..]) == multiset(old(a[..]))
    ensures Stable(old(a[..]), a[..], less)
  {
    var i := 1;
    while i < a.Length
      invariant a.Length == 0 || 1 <= i <= a.Length
      invariant SortedBy(a[..if a.Length == 0 then 0 else i], less)
      invariant multiset(a[..]) == multiset(old(a[..]))
      invariant Stable(old(a[..]), a[..], less)
    {
      ghost var o := a[..];
      var p := Shift(a, i, less);
      InsertStep(o, a[..], p, i, less);
      i := i + 1;
    }
    assert a[..] == a[..a.Length];
  }

  /** A sorted sequence's elements are a permutation: membership is kept. */
  lemma PermMember<T>(s: seq<T>, t: seq<T>, x: T)
    requires multiset(s) == multiset(t)
    ensures x in s <==> x in t
  {
    assert x in s <==> x in multiset(s);
    assert x in t <==> x in multiset(t);
  }
}
