/**
 * A model of `slices.SortFunc` as the spell checker and `chanToSortedSlice` use it:
 * sorting a sequence by a three-way comparator that returns a negative
 * number, zero or a positive number.
 */
module Sorting {

  /**
   * What `slices.SortFunc` asks of a comparator, a strict weak ordering:
   * `cmp(a, b)` is negative exactly when `cmp(b, a)` is positive, and
   * "compares at most equal" is transitive.
   */
  ghost predicate StrictWeakOrder<T(!new)>(cmp: (T, T) -> int) {
    && SignConsistent(cmp)
    && (forall a, b, c :: cmp(a, b) <= 0 && cmp(b, c) <= 0 ==> cmp(a, c) <= 0)
  }

  /** `cmp(a, b)` is negative exactly when `cmp(b, a)` is positive. */
  ghost predicate SignConsistent<T(!new)>(cmp: (T, T) -> int) {
    forall a, b :: cmp(a, b) < 0 <==> cmp(b, a) > 0
  }

  /**
   * A strict weak ordering that is a total order on the values: it
   * distinguishes any two different values.
   */
  ghost predicate TotalComparator<T(!new)>(cmp: (T, T) -> int) {
    && StrictWeakOrder(cmp)
    && (forall a, b :: cmp(a, b) <= 0 && cmp(b, a) <= 0 ==> a == b)
  }

  /** Every element compares at most equal to its successor. */
  predicate SortedBy<T>(xs: seq<T>, cmp: (T, T) -> int) {
    forall i :: 0 < i < |xs| ==> cmp(xs[i - 1], xs[i]) <= 0
  }

  /** Inserts `x` into sorted `ys` in front of the first element not below it. */
  function Insert<T(!new)>(x: T, ys: seq<T>, cmp: (T, T) -> int): (r: seq<T>)
    requires SignConsistent(cmp)
    requires SortedBy(ys, cmp)
    ensures |r| == |ys| + 1
    ensures SortedBy(r, cmp)
    ensures multiset(r) == multiset(ys) + multiset{x}
    ensures r[0] == x || (|ys| > 0 && r[0] == ys[0])
  {
    if |ys| == 0 || cmp(x, ys[0]) <= 0 then [x] + ys
    else
      var rest := Insert(x, ys[1..], cmp);
      assert cmp(ys[0], rest[0]) <= 0 by {
        assert cmp(ys[0], x) < 0;
        if rest[0] != x {
          assert rest[0] == ys[1];
        }
      }
      assert ys == [ys[0]] + ys[1..];
      [ys[0]] + rest
  }

  /**
   * `slices.SortFunc`: the elements of `xs`, rearranged so that each compares
   * at most equal to the next. Go's algorithm is not stable; this model
   * (insertion sort) happens to be, and nothing below relies on that except
   * where it is said.
   */
  function SortFunc<T(!new)>(xs: seq<T>, cmp: (T, T) -> int): (r: seq<T>)
    requires StrictWeakOrder(cmp)
    ensures SortedBy(r, cmp)
    ensures multiset(r) == multiset(xs)
  {
    if |xs| == 0 then []
    else
      assert xs == [xs[0]] + xs[1..];
      Insert(xs[0], SortFunc(xs[1..], cmp), cmp)
  }

  /** Sorting a sequence that is already in order leaves it as it is. */
  lemma {:induction false} SortFuncOfSorted<T(!new)>(xs: seq<T>, cmp: (T, T) -> int)
    requires StrictWeakOrder(cmp)
    requires SortedBy(xs, cmp)
    ensures SortFunc(xs, cmp) == xs
  {
    if |xs| > 0 {
      var rest := xs[1..];
      SortFuncOfSorted(rest, cmp);
      assert SortedBy(rest, cmp);
      assert SortFunc(xs, cmp) == Insert(xs[0], rest, cmp);
      assert |rest| == 0 || cmp(xs[0], rest[0]) <= 0;
      assert [xs[0]] + rest == xs;
    }
  }

  /** Under a total comparator, the head of a sorted sequence is below all of it. */
  lemma {:induction false} SortedHeadIsLeast<T(!new)>(xs: seq<T>, cmp: (T, T) -> int, k: int)
    requires TotalComparator(cmp)
    requires SortedBy(xs, cmp)
    requires 0 <= k < |xs|
    ensures cmp(xs[0], xs[k]) <= 0
  {
    if k > 0 {
      SortedHeadIsLeast(xs, cmp, k - 1);
    }
  }

  /** Two sorted arrangements of the same values start with the same value. */
  lemma SortedHeadsAgree<T(!new)>(a: seq<T>, b: seq<T>, cmp: (T, T) -> int)
    requires TotalComparator(cmp)
    requires SortedBy(a, cmp) && SortedBy(b, cmp)
    requires multiset(a) == multiset(b)
    requires |a| > 0
    ensures |b| > 0 && a[0] == b[0]
  {
    assert a[0] in multiset(b);
    var j :| 0 <= j < |b| && b[j] == a[0];
    SortedHeadIsLeast(b, cmp, j);
    assert b[0] in multiset(a);
    var k :| 0 <= k < |a| && a[k] == b[0];
    SortedHeadIsLeast(a, cmp, k);
  }

  /** Removing equal heads from equal multisets leaves equal multisets. */
  lemma TailsSameValues<T>(a: seq<T>, b: seq<T>)
    requires multiset(a) == multiset(b)
    requires |a| > 0 && |b| > 0 && a[0] == b[0]
    ensures multiset(a[1..]) == multiset(b[1..])
  {
    assert a == [a[0]] + a[1..] && b == [b[0]] + b[1..];
    assert multiset(a[1..]) == multiset(a) - multiset{a[0]};
    assert multiset(b[1..]) == multiset(b) - multiset{b[0]};
  }

  /**
   * Under a total comparator there is only one sorted arrangement of a
   * multiset of values, so the result of `SortFunc` is fully determined.
   */
  lemma {:induction false} SortedPermutationUnique<T(!new)>(a: seq<T>, b: seq<T>, cmp: (T, T) -> int)
    requires TotalComparator(cmp)
    requires SortedBy(a, cmp) && SortedBy(b, cmp)
    requires multiset(a) == multiset(b)
    ensures a == b
    decreases |a|
  {
    if |a| == 0 {
      assert |b| == |multiset(b)| == 0;
    } else {
      SortedHeadsAgree(a, b, cmp);
      TailsSameValues(a, b);
      SortedPermutationUnique(a[1..], b[1..], cmp);
      assert a == [a[0]] + a[1..] && b == [b[0]] + b[1..];
    }
  }
}
