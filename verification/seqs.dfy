/** Generic sequence helpers: first occurrence, distinctness and order-preserving filtering. */
module Seqs {

  /** Index of the first occurrence of x in xs, or |xs| when x does not occur. */
  function Find<T(==)>(xs: seq<T>, x: T): (k: nat)
    ensures k <= |xs|
    ensures k < |xs| ==> xs[k] == x
    ensures forall j :: 0 <= j < k ==> xs[j] != x
  {
    if |xs| == 0 then 0
    else if xs[0] == x then 0
    else 1 + Find(xs[1..], x)
  }

  /** An element absent from a prefix is found at the same place in the rest, shifted by the prefix. */
  lemma {:induction false} FindAppend<T>(a: seq<T>, b: seq<T>, x: T)
    requires x !in a
    ensures Find(a + b, x) == |a| + Find(b, x)
  {
    if |a| > 0 {
      assert (a + b)[1..] == a[1..] + b;
      FindAppend(a[1..], b, x);
    } else {
      assert a + b == b;
    }
  }

  /** No element occurs twice. */
  predicate Distinct<T(==)>(xs: seq<T>) {
    forall i, j :: 0 <= i < |xs| && 0 <= j < |xs| && i != j ==> xs[i] != xs[j]
  }

  /** In a sequence without repetitions the first occurrence of xs[j] is j itself. */
  lemma FindDistinct<T>(xs: seq<T>, j: nat)
    requires Distinct(xs)
    requires j < |xs|
    ensures Find(xs, xs[j]) == j
  {
  }

  /** The elements of xs that p accepts, in their order in xs. */
  function Filter<T>(xs: seq<T>, p: T -> bool): seq<T> {
    if |xs| == 0 then []
    else Filter(xs[..|xs| - 1], p) + (if p(xs[|xs| - 1]) then [xs[|xs| - 1]] else [])
  }

  /** Filtering distributes over concatenation: relative order of the kept elements is unchanged. */
  lemma {:induction false} FilterAppend<T>(a: seq<T>, b: seq<T>, p: T -> bool)
    ensures Filter(a + b, p) == Filter(a, p) + Filter(b, p)
    decreases |b|
  {
    if |b| == 0 {
      assert a + b == a;
    } else {
      var b' := b[..|b| - 1];
      assert (a + b)[..|a + b| - 1] == a + b';
      FilterAppend(a, b', p);
    }
  }

  /** An element survives filtering exactly when it occurs in the input and p accepts it. */
  lemma {:induction false} FilterMembers<T>(xs: seq<T>, p: T -> bool, x: T)
    ensures x in Filter(xs, p) <==> x in xs && p(x)
  {
    if |xs| > 0 {
      var init := xs[..|xs| - 1];
      FilterMembers(init, p, x);
      assert xs == init + [xs[|xs| - 1]];
    }
  }

  /** Every element that survives filtering is accepted by p. */
  lemma {:induction false} FilterAccepted<T>(xs: seq<T>, p: T -> bool)
    ensures forall j :: 0 <= j < |Filter(xs, p)| ==> p(Filter(xs, p)[j])
  {
    if |xs| > 0 {
      FilterAccepted(xs[..|xs| - 1], p);
    }
  }

  /** Filtering never lengthens a sequence, and leaves it unchanged when p accepts everything. */
  lemma {:induction false} FilterAll<T>(xs: seq<T>, p: T -> bool)
    ensures |Filter(xs, p)| <= |xs|
    ensures (forall i :: 0 <= i < |xs| ==> p(xs[i])) ==> Filter(xs, p) == xs
  {
    if |xs| > 0 {
      var init := xs[..|xs| - 1];
      FilterAll(init, p);
      assert xs == init + [xs[|xs| - 1]];
      if forall i :: 0 <= i < |xs| ==> p(xs[i]) {
        assert forall i :: 0 <= i < |init| ==> p(init[i]) by {
          forall i | 0 <= i < |init|
            ensures p(init[i])
          {
            assert init[i] == xs[i];
          }
        }
        assert Filter(init, p) == init;
        assert p(xs[|xs| - 1]);
      }
    }
  }
}
