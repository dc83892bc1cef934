/**
 * `Array.prototype.sort` with a comparator returning a number, modelled by a
 * stable insertion sort. For a consistent comparator a stable sort has
 * exactly one possible result. For one that is not (a comparator that never
 * returns 0, say), the order the engine picks is not promised, and the
 * contracts about such a sort state only what every order satisfies.
 */
module Sorting {

  /**
   * Swapping the arguments of a positive comparison never gives a positive
   * result (a NaN result counts as 0). Consistent comparators have this, and
   * so does `a > b ? 1 : -1`, which never answers 0.
   */
  ghost predicate Asymmetric<T(!new)>(cmp: (T, T) -> int) {
    forall a, b :: cmp(a, b) > 0 ==> cmp(b, a) <= 0
  }

  /** Each element compares at most equal to its right neighbour. */
  predicate AdjacentSorted<T>(xs: seq<T>, cmp: (T, T) -> int) {
    forall i :: 0 <= i < |xs| - 1 ==> cmp(xs[i], xs[i + 1]) <= 0
  }

  /** Puts `x` after every leading element that does not compare above it. */
  function Insert<T(!new)>(x: T, ys: seq<T>, cmp: (T, T) -> int): (r: seq<T>)
    ensures multiset(r) == multiset(ys) + multiset{x}
    ensures |r| == |ys| + 1 && (r[0] == x || (|ys| > 0 && r[0] == ys[0]))
    ensures Asymmetric(cmp) && AdjacentSorted(ys, cmp) ==> AdjacentSorted(r, cmp)
  {
    if |ys| == 0 then [x]
    else if cmp(ys[0], x) > 0 then [x] + ys
    else
      var rest := Insert(x, ys[1..], cmp);
      InsertBehind(x, ys, rest, cmp);
      [ys[0]] + rest
  }

  /** Inserting behind a head that does not compare above `x` keeps the contract of `Insert`. */
  lemma InsertBehind<T(!new)>(x: T, ys: seq<T>, rest: seq<T>, cmp: (T, T) -> int)
    requires |ys| > 0 && cmp(ys[0], x) <= 0
    requires multiset(rest) == multiset(ys[1..]) + multiset{x}
    requires |rest| == |ys| && (rest[0] == x || (|ys| > 1 && rest[0] == ys[1]))
    requires Asymmetric(cmp) && AdjacentSorted(ys[1..], cmp) ==> AdjacentSorted(rest, cmp)
    ensures var r := [ys[0]] + rest;
      multiset(r) == multiset(ys) + multiset{x}
      && |r| == |ys| + 1 && r[0] == ys[0]
      && (Asymmetric(cmp) && AdjacentSorted(ys, cmp) ==> AdjacentSorted(r, cmp))
  {
    assert ys == [ys[0]] + ys[1..];
    if Asymmetric(cmp) && AdjacentSorted(ys, cmp) {
      SortedTail(ys, cmp);
      SortedCons(ys[0], rest, cmp);
    }
  }

  /** The tail of a sorted list is sorted. */
  lemma SortedTail<T>(ys: seq<T>, cmp: (T, T) -> int)
    requires |ys| > 0 && AdjacentSorted(ys, cmp)
    ensures AdjacentSorted(ys[1..], cmp)
  {
    assert forall i :: 0 <= i < |ys| - 1 ==> ys[1..][i] == ys[i + 1];
  }

  /** A sorted list stays sorted with a head that does not compare above its first element. */
  lemma SortedCons<T>(y: T, rest: seq<T>, cmp: (T, T) -> int)
    requires AdjacentSorted(rest, cmp) && (|rest| > 0 ==> cmp(y, rest[0]) <= 0)
    ensures AdjacentSorted([y] + rest, cmp)
  {
    assert forall i :: 1 <= i < |rest| + 1 ==> ([y] + rest)[i] == rest[i - 1];
  }

  /** The stable sort of `xs` by `cmp`: each element is inserted after the equal ones before it. */
  function InsertionSort<T(!new)>(xs: seq<T>, cmp: (T, T) -> int): (r: seq<T>)
    ensures multiset(r) == multiset(xs)
    ensures Asymmetric(cmp) ==> AdjacentSorted(r, cmp)
  {
    if |xs| == 0 then []
    else
      var init := xs[..|xs| - 1];
      assert xs == init + [xs[|xs| - 1]];
      Insert(xs[|xs| - 1], InsertionSort(init, cmp), cmp)
  }

  /** Adjacent order on integer keys is order between any two positions. */
  lemma {:induction false} AdjacentNonIncreasing(ks: seq<int>, i: nat, j: nat)
    requires forall k :: 0 <= k < |ks| - 1 ==> ks[k] >= ks[k + 1]
    requires i <= j < |ks|
    ensures ks[i] >= ks[j]
    decreases j - i
  {
    if i < j {
      AdjacentNonIncreasing(ks, i + 1, j);
    }
  }
}
