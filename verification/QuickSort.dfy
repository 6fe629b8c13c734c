/**
 The introsort behind qsort_array: quicksort with a decaying depth budget that falls back
 to heapsort, with its worst-case number of comparisons and recursion depth.
 */
module QuickSorting {
  import opened Arithmetic
  import opened Ordering
  import opened Rearrangement
  import opened HeapSorting

  /** The depth budget handed to the next level of recursion. */
  function Decay(d: nat): nat {
    d / 2 + d / 2 / 16
  }

  /** The number of levels until the budget is used up. */
  ghost function Levels(d: nat): nat {
    if d == 0 then 0 else 1 + Levels(Decay(d))
  }

  ghost function Pow(base: nat, k: nat): nat {
    if k == 0 then 1 else base * Pow(base, k - 1)
  }

  /** Log2 is the logarithm to base 2, rounded down. */
  lemma {:induction false} Log2IsFloor(n: nat)
    requires n >= 1
    ensures Pow(2, Log2(n)) <= n < Pow(2, Log2(n) + 1)
  {
    if n >= 2 {
      Log2IsFloor(n / 2);
    }
  }

  /** Each level keeps at most 17/32 of the budget, so k + 1 levels need a budget of (32/17)^k. */
  lemma {:induction false} LevelsNeedBudget(d: nat, k: nat)
    requires Levels(d) > k
    ensures Pow(32, k) <= Pow(17, k) * d
  {
    if k > 0 {
      LevelsNeedBudget(Decay(d), k - 1);
      BudgetStep(Pow(32, k - 1), Pow(17, k - 1), Decay(d), d);
    }
  }

  lemma BudgetStep(p: nat, q: nat, e: nat, d: nat)
    requires p <= q * e && 32 * e <= 17 * d
    ensures 32 * p <= 17 * q * d
  {
    MulNonNegative(q, 17 * d - 32 * e);
    assert q * (17 * d - 32 * e) == 17 * (q * d) - 32 * (q * e);
    assert 17 * q * d == 17 * (q * d);
  }

  /** Depth k + 1 is reached only if (32/17)^k <= span. */
  ghost predicate Shallow(height: nat, span: nat) {
    forall k: nat {:trigger Pow(32, k)} :: k < height ==> Pow(32, k) <= Pow(17, k) * span
  }

  lemma BudgetLasts(span: nat, height: nat)
    requires height <= Levels(span)
    ensures Shallow(height, span)
  {
    forall k: nat | k < height ensures Pow(32, k) <= Pow(17, k) * span {
      LevelsNeedBudget(span, k);
    }
  }

  /** Two levels at least halve the budget. */
  lemma {:induction false} LevelsLogarithmic(d: nat)
    requires d > 0
    ensures Levels(d) <= 2 * Log2(d) + 1
  {
    if d >= 2 {
      var e := Decay(Decay(d));
      assert 2 * e <= d && Levels(d) == 2 + Levels(e);
      if e > 0 {
        LevelsLogarithmic(e);
        Log2Monotone(e, d / 2);
      }
    }
  }

  /** s[left..i] holds elements before the pivot at right, s[i..j] elements that are not. */
  ghost predicate Partitioned<T>(less: (T, T) -> bool, s: seq<T>, left: nat, i: nat, j: nat, right: nat) {
    && left <= i <= j <= right < |s|
    && (forall k :: left <= k < i ==> less(s[k], s[right]))
    && (forall k :: i <= k < j ==> !less(s[k], s[right]))
  }

  /** Elements before the pivot at p are on its left, all others on its right. */
  ghost predicate AroundPivot<T>(less: (T, T) -> bool, s: seq<T>, left: nat, p: nat, right: nat) {
    && left <= p <= right < |s|
    && (forall k :: left <= k < p ==> less(s[k], s[p]))
    && (forall k :: p < k <= right ==> !less(s[k], s[p]))
  }

  lemma PartitionedSwap<T>(less: (T, T) -> bool, s0: seq<T>, s: seq<T>, left: nat, i: nat, j: nat, right: nat)
    requires Partitioned(less, s, left, i, j, right) && Rearranged(s0, s, left, right + 1)
    requires j < right && less(s[j], s[right])
    ensures var t := Swapped(s, i, j);
            && Partitioned(less, t, left, i + 1, j + 1, right)
            && Rearranged(s0, t, left, right + 1)
            && t[right] == s[right]
  {
    RearrangedSwap(s0, s, i, j, left, right + 1);
  }

  lemma PlacePivot<T>(less: (T, T) -> bool, s0: seq<T>, s: seq<T>, left: nat, p: nat, right: nat)
    requires Partitioned(less, s, left, p, right, right)
    requires Rearranged(s0, s, left, right + 1)
    ensures var t := Swapped(s, p, right);
            && t[p] == s[right]
            && AroundPivot(less, t, left, p, right)
            && Rearranged(s0, t, left, right + 1)
  {
    RearrangedSwap(s0, s, p, right, left, right + 1);
  }

  /**
   Lomuto partitioning around the middle element. Nothing is asked of the comparator: the
   two sides come out as it answers.
   */
  method Partition<T(!new)>(a: array<T>, left: nat, right: nat, comp: Comparer<T>) returns (p: nat)
    requires left < right < a.Length
    modifies a, comp
    ensures left <= p <= right && AroundPivot(comp.less, a[..], left, p, right)
    ensures a[..][p] == old(a[..])[(right - left) / 2 + left]
    ensures Rearranged(old(a[..]), a[..], left, right + 1)
    ensures comp.calls == old(comp.calls) + (right - left)
  {
    ghost var s0 := a[..];
    var middle := (right - left) / 2 + left;
    assert Swapped(s0, middle, right)[right] == s0[middle];
    hide Swapped;
    RearrangedSwap(s0, s0, middle, right, left, right + 1);
    Exchange(a, middle, right);
    var i := left;
    for j := left to right
      invariant Partitioned(comp.less, a[..], left, i, j, right)
      invariant a[..][right] == s0[middle]
      invariant Rearranged(s0, a[..], left, right + 1)
      invariant comp.calls == old(comp.calls) + (j - left)
    {
      ghost var s := a[..];
      var before := comp.Less(a[j], a[right]);
      assert a[..] == s;
      if before {
        PartitionedSwap(comp.less, s0, s, left, i, j, right);
        Exchange(a, i, j);
        i := i + 1;
      }
    }
    p := i;
    PlacePivot(comp.less, s0, a[..], left, p, right);
    Exchange(a, p, right);
  }

  /** Around a pivot, sorting both sides sorts the whole range. */
  lemma SortedAroundPivot<T(!new)>(
    less: (T, T) -> bool, s0: seq<T>, s: seq<T>, t: seq<T>, u: seq<T>, left: nat, p: nat, right: nat)
    requires StrictWeakOrder(less)
    requires Rearranged(s0, s, left, right + 1) && AroundPivot(less, s, left, p, right)
    requires Rearranged(s, t, left, p) && Sorted(less, t, left, p)
    requires Rearranged(t, u, p + 1, right + 1) && Sorted(less, u, p + 1, right + 1)
    ensures Sorted(less, u, left, right + 1)
    ensures Rearranged(s0, u, left, right + 1)
  {
    RearrangedThen(s0, s, t, left, right + 1, left, p);
    RearrangedThen(s0, t, u, left, right + 1, p + 1, right + 1);
    forall k | left <= k < p ensures !less(u[p], u[k]) {
      var m := RearrangedOrigin(s, t, left, p, k);
      Asymmetric(less, s[m], s[p]);
    }
    forall k | p < k <= right ensures !less(u[k], u[p]) {
      var m := RearrangedOrigin(t, u, p + 1, right + 1, k);
    }
    forall i, j | left <= i < j <= right ensures !less(u[j], u[i]) {
      if i < p < j {
        NotBeforeTransitive(less, u[i], u[p], u[j]);
      }
    }
  }

  /** x * y as repeated addition, which keeps products out of the proofs of the methods. */
  ghost function Times(x: nat, y: nat): nat {
    if x == 0 then 0 else y + Times(x - 1, y)
  }

  lemma {:induction false} TimesIsProduct(x: nat, y: nat)
    ensures Times(x, y) == x * y
  {
    if x > 0 {
      TimesIsProduct(x - 1, y);
      assert x * y == (x - 1) * y + y;
    }
  }

  /** The worst number of comparisons on m elements with a given depth budget. */
  ghost function Cost(m: nat, depthCheck: nat): nat {
    Times(m, Levels(depthCheck) + 4 * Log2(m))
  }

  lemma CostOfHeapSort(m: nat, depthCheck: nat)
    ensures 4 * (m * Log2(m)) <= Cost(m, depthCheck)
  {
    CostOfHeapSortArithmetic(m, Levels(depthCheck), Log2(m));
  }

  lemma CostOfHeapSortArithmetic(m: nat, v: nat, l: nat)
    ensures 4 * (m * l) <= Times(m, v + 4 * l)
  {
    TimesIsProduct(m, v + 4 * l);
    MulNonNegative(m, v);
    assert m * (v + 4 * l) == m * v + 4 * (m * l);
  }

  lemma {:induction false} TimesMonotone(x: nat, y: nat, y': nat)
    requires y <= y'
    ensures Times(x, y) <= Times(x, y')
  {
    if x > 0 {
      TimesMonotone(x - 1, y, y');
    }
  }

  lemma {:induction false} TimesSplit(x1: nat, x2: nat, y: nat)
    ensures Times(x1 + x2, y) == Times(x1, y) + Times(x2, y)
  {
    if x1 > 0 {
      TimesSplit(x1 - 1, x2, y);
      assert x1 + x2 - 1 == x1 - 1 + x2;
    }
  }

  lemma {:induction false} TimesSuccessor(x: nat, y: nat)
    ensures Times(x, y + 1) == Times(x, y) + x
  {
    if x > 0 {
      TimesSuccessor(x - 1, y);
    }
  }

  /** Partitioning m elements and sorting the two sides one level deeper. */
  lemma CostOfPartition(m: nat, m1: nat, m2: nat, depthCheck: nat)
    requires depthCheck > 0 && m1 + m2 + 1 == m
    ensures (m - 1) + Cost(m1, Decay(depthCheck)) + Cost(m2, Decay(depthCheck)) <= Cost(m, depthCheck)
  {
    hide Levels, Log2, Times, Cost;
    var e := Decay(depthCheck);
    CostOfSide(m1, m, e);
    CostOfSide(m2, m, e);
    CombineSides(m, m1, m2, Levels(e) + 4 * Log2(m), Cost(m1, e), Cost(m2, e));
    CostOneLevelUp(m, depthCheck);
  }

  lemma CostOneLevelUp(m: nat, depthCheck: nat)
    requires depthCheck > 0
    ensures Cost(m, depthCheck) == Times(m, Levels(Decay(depthCheck)) + 4 * Log2(m) + 1)
  {
  }

  lemma CombineSides(m: nat, m1: nat, m2: nat, c: nat, cost1: nat, cost2: nat)
    requires m1 + m2 + 1 == m
    requires cost1 <= Times(m1, c) && cost2 <= Times(m2, c)
    ensures (m - 1) + cost1 + cost2 <= Times(m, c + 1)
  {
    SplitTimes(m, m1, m2, c);
  }

  lemma CostOfSide(m1: nat, m: nat, e: nat)
    requires m1 <= m
    ensures Cost(m1, e) <= Times(m1, Levels(e) + 4 * Log2(m))
  {
    Log2Monotone(m1, m);
    TimesMonotone(m1, Levels(e) + 4 * Log2(m1), Levels(e) + 4 * Log2(m));
  }

  lemma SplitTimes(m: nat, m1: nat, m2: nat, c: nat)
    requires m1 + m2 + 1 == m
    ensures Times(m, c + 1) == Times(m1, c) + Times(m2, c) + c + m
  {
    TimesSuccessor(m, c);
    TimesSplit(m1 + m2, 1, c);
    TimesSplit(m1, m2, c);
    assert Times(1, c) == c + Times(0, c);
  }

  method QuickSortMain<T(!new)>(a: array<T>, left: nat, right: nat, depthCheck: nat, comp: Comparer<T>)
    returns (ghost height: nat)
    requires left <= right + 1 && right < a.Length
    requires StrictWeakOrder(comp.less)
    modifies a, comp
    ensures Sorted(comp.less, a[..], left, right + 1)
    ensures Rearranged(old(a[..]), a[..], left, right + 1)
    ensures comp.calls <= old(comp.calls) + Cost(right + 1 - left, depthCheck)
    ensures height <= Levels(depthCheck)
    decreases right + 1 - left, 1
  {
    height := 0;
    if left < right {
      if right - left < 30 || depthCheck == 0 {
        CostOfHeapSort(right + 1 - left, depthCheck);
        HeapSort(a, left, right, comp);
      } else {
        hide *;
        height := SplitAndSort(a, left, right, depthCheck, comp);
      }
    }
  }

  /** Partitions the range and sorts both sides with what is left of the budget. */
  method SplitAndSort<T(!new)>(a: array<T>, left: nat, right: nat, depthCheck: nat, comp: Comparer<T>)
    returns (ghost height: nat)
    requires left < right < a.Length && depthCheck > 0
    requires StrictWeakOrder(comp.less)
    modifies a, comp
    ensures Sorted(comp.less, a[..], left, right + 1)
    ensures Rearranged(old(a[..]), a[..], left, right + 1)
    ensures comp.calls <= old(comp.calls) + Cost(right + 1 - left, depthCheck)
    ensures height <= Levels(depthCheck)
    decreases right + 1 - left, 0
  {
    var depth := depthCheck / 2;
    depth := depth + depth / 16;
    assert depth == Decay(depthCheck) && Levels(depthCheck) == 1 + Levels(depth);
    hide *;
    ghost var s0 := a[..];
    var p := Partition(a, left, right, comp);
    ghost var s := a[..];
    CostOfPartition(right + 1 - left, p - left, right - p, depthCheck);
    ghost var heightLeft, heightRight := 0, 0;
    if p > 0 {
      heightLeft := QuickSortMain(a, left, p - 1, depth, comp);
    }
    ghost var t := a[..];
    heightRight := QuickSortMain(a, p + 1, right, depth, comp);
    SortedAroundPivot(comp.less, s0, s, t, a[..], left, p, right);
    height := 1 + if heightLeft < heightRight then heightRight else heightLeft;
  }

  lemma LevelsBound(n: nat)
    requires n >= 1
    ensures Levels(n - 1) <= 2 * Log2(n) + 1
  {
    if n > 1 {
      LevelsLogarithmic(n - 1);
      Log2Monotone(n - 1, n);
    }
  }

  /** The worst case over n elements: O(n log n) comparisons ... */
  lemma TotalCost(n: nat)
    requires n >= 1
    ensures Cost(n, n - 1) <= n * (6 * Log2(n) + 1)
  {
    hide Levels, Log2, Times;
    var v, l := Levels(n - 1), Log2(n);
    assert v <= 2 * l + 1 by {
      LevelsBound(n);
    }
    TotalCostArithmetic(n, v, l);
  }

  /** ... and O(log n) levels of recursion. */
  lemma TotalDepth(n: nat, height: nat)
    requires n >= 1 && height <= Levels(n - 1)
    ensures height <= 2 * Log2(n) + 1
    ensures Shallow(height, n - 1)
  {
    LevelsBound(n);
    BudgetLasts(n - 1, height);
  }

  lemma TotalCostArithmetic(n: nat, v: nat, l: nat)
    requires v <= 2 * l + 1
    ensures Times(n, v + 4 * l) <= n * (6 * l + 1)
  {
    var x, y := v + 4 * l, 6 * l + 1;
    TimesIsProduct(n, x);
    MulNonNegative(n, y - x);
    assert n * (y - x) == n * y - n * x;
  }

  /**
   Sorts a[left..right] in place. `height` is the deepest level of recursion reached.
   */
  method QuickSort<T(!new)>(a: array<T>, left: nat, right: nat, comp: Comparer<T>) returns (ghost height: nat)
    requires left <= right < a.Length
    requires StrictWeakOrder(comp.less)
    modifies a, comp
    ensures Sorted(comp.less, a[..], left, right + 1)
    ensures Rearranged(old(a[..]), a[..], left, right + 1)
    ensures var n := right - left + 1; comp.calls <= old(comp.calls) + n * (6 * Log2(n) + 1)
    ensures height <= 2 * Log2(right - left + 1) + 1
    ensures Shallow(height, right - left)
  {
    ghost var n := right - left + 1;
    hide StrictWeakOrder, Sorted, Rearranged, Cost, Levels, Log2, Shallow;
    height := QuickSortMain(a, left, right, right - left, comp);
    TotalCost(n);
    TotalDepth(n, height);
  }
}
