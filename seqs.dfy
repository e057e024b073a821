/** Order-preserving subsequences, used to state what the filtering passes keep. */
module Seqs {
  /** xs can be obtained from ys by deleting elements. */
  predicate SubseqOf<T(==)>(xs: seq<T>, ys: seq<T>)
    decreases |ys|
  {
    if xs == [] then true
    else if ys == [] then false
    else (xs[|xs| - 1] == ys[|ys| - 1] && SubseqOf(xs[..|xs| - 1], ys[..|ys| - 1]))
         || SubseqOf(xs, ys[..|ys| - 1])
  }

  lemma {:induction false} SubseqRefl<T>(xs: seq<T>)
    ensures SubseqOf(xs, xs)
    decreases |xs|
  {
    if xs != [] { SubseqRefl(xs[..|xs| - 1]); }
  }

  lemma {:induction false} SubseqTrans<T>(a: seq<T>, b: seq<T>, c: seq<T>)
    requires SubseqOf(a, b) && SubseqOf(b, c)
    ensures SubseqOf(a, c)
    decreases |c|
  {
    if a != [] {
      assert b != [] && c != [];
      if b[|b| - 1] == c[|c| - 1] && SubseqOf(b[..|b| - 1], c[..|c| - 1]) {
        if a[|a| - 1] == b[|b| - 1] && SubseqOf(a[..|a| - 1], b[..|b| - 1]) {
          SubseqTrans(a[..|a| - 1], b[..|b| - 1], c[..|c| - 1]);
        } else {
          SubseqTrans(a, b[..|b| - 1], c[..|c| - 1]);
        }
      } else {
        SubseqTrans(a, b, c[..|c| - 1]);
      }
    }
  }

  lemma {:induction false} SubseqMember<T>(xs: seq<T>, ys: seq<T>, x: T)
    requires SubseqOf(xs, ys) && x in xs
    ensures x in ys
    decreases |ys|
  {
    if x == xs[|xs| - 1] && xs[|xs| - 1] == ys[|ys| - 1] {
    } else if xs[|xs| - 1] == ys[|ys| - 1] && SubseqOf(xs[..|xs| - 1], ys[..|ys| - 1]) {
      assert x in xs[..|xs| - 1];
      SubseqMember(xs[..|xs| - 1], ys[..|ys| - 1], x);
    } else {
      SubseqMember(xs, ys[..|ys| - 1], x);
    }
  }

  /** Appending the same element to both sides keeps the relation. */
  lemma SubseqSnoc<T>(xs: seq<T>, ys: seq<T>, y: T)
    requires SubseqOf(xs, ys)
    ensures SubseqOf(xs + [y], ys + [y]) && SubseqOf(xs, ys + [y])
  {
    assert (xs + [y])[..|xs + [y]| - 1] == xs;
    assert (ys + [y])[..|ys + [y]| - 1] == ys;
  }

  /** No value occurs twice. */
  predicate Distinct<T(==)>(xs: seq<T>) {
    forall i, j :: 0 <= i < j < |xs| ==> xs[i] != xs[j]
  }

  /** The distinct values in order of first occurrence. */
  function Dedup<T(==,!new)>(xs: seq<T>): (ds: seq<T>)
    ensures Distinct(ds)
    ensures forall x :: x in ds <==> x in xs
  {
    if xs == [] then []
    else
      var init := xs[..|xs| - 1];
      var last := xs[|xs| - 1];
      assert xs == init + [last];
      var d := Dedup(init);
      if last in d then d else d + [last]
  }

  /**
   * First-occurrence order: the distinct values of any prefix are a prefix
   * of the distinct values, so a value seen earlier comes first.
   */
  lemma {:induction false} DedupPrefix<T(!new)>(xs: seq<T>, i: nat)
    requires i <= |xs|
    ensures Dedup(xs[..i]) <= Dedup(xs)
    decreases |xs|
  {
    if i < |xs| {
      var init := xs[..|xs| - 1];
      assert xs[..i] == init[..i];
      DedupPrefix(init, i);
    } else {
      assert xs[..i] == xs;
    }
  }
}
