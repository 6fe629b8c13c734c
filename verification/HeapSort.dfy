/**
 Heapsort of an array range (heapify, hsort_array): a max heap laid out at an arbitrary
 offset `start`, with a bound on the number of comparisons.
 */
module HeapSorting {
  import opened Arithmetic
  import opened Ordering
  import opened Rearrangement
  import opened InsertionSorting

  function Log2(n: nat): nat {
    if n < 2 then 0 else 1 + Log2(n / 2)
  }

  lemma {:induction false} Log2Monotone(m: nat, n: nat)
    requires m <= n
    ensures Log2(m) <= Log2(n)
  {
    if m >= 2 {
      Log2Monotone(m / 2, n / 2);
    }
  }

  /** Halving the quotient: the heap below a child at rank q >= 2p is one level lower. */
  lemma Log2Descend(size: nat, p: nat, q: nat)
    requires 0 < p && 2 * p <= q <= size
    ensures Log2(size / q) + 1 <= Log2(size / p)
  {
    QuotientHalves(size, p, q);
    Log2Monotone(size / q, (size / p) / 2);
  }

  lemma QuotientHalves(size: nat, p: nat, q: nat)
    requires 0 < p && 2 * p <= q <= size
    ensures size / q <= (size / p) / 2 && size / p >= 2
  {
    var k := size / q;
    assert k * q <= size;
    assert 2 * k * p <= size by {
      assert k * (2 * p) <= k * q;
    }
    QuotientAtLeast(size, p, 2 * k);
    QuotientAtLeast(size, p, 2);
  }

  lemma QuotientAtLeast(size: nat, p: nat, k: nat)
    requires 0 < p && k * p <= size
    ensures k <= size / p
  {
    var q := size / p;
    assert q < k ==> (q + 1) * p <= k * p;
  }

  /** The index of the left child; the right child follows it. */
  function Left(start: nat, i: nat): int {
    2 * i + 1 - start
  }

  /** The node at i is not before any of its children inside [start, end]. */
  ghost predicate NodeOk<T>(less: (T, T) -> bool, s: seq<T>, start: nat, end: nat, i: nat)
    requires start <= i < |s| && end < |s|
  {
    AboveChildren(less, s, start, end, i, s[i])
  }

  /** x is not before any of the children of the node at i. */
  ghost predicate AboveChildren<T>(less: (T, T) -> bool, s: seq<T>, start: nat, end: nat, i: nat, x: T)
    requires start <= i < |s| && end < |s|
  {
    && (Left(start, i) <= end ==> !less(x, s[Left(start, i)]))
    && (Left(start, i) + 1 <= end ==> !less(x, s[Left(start, i) + 1]))
  }

  /** All nodes in [from, end], except possibly the one at hole, satisfy the heap order. */
  ghost predicate HeapBut<T>(less: (T, T) -> bool, s: seq<T>, start: nat, end: nat, from: nat, hole: int)
    requires start <= from && end < |s|
  {
    forall k :: from <= k <= end && k != hole ==> NodeOk(less, s, start, end, k)
  }

  ghost predicate Heap<T>(less: (T, T) -> bool, s: seq<T>, start: nat, end: nat, from: nat)
    requires start <= from && end < |s|
  {
    HeapBut(less, s, start, end, from, -1)
  }

  /** The root of a heap is not before any element of the heap. */
  lemma {:induction false} RootIsMaximal<T(!new)>(less: (T, T) -> bool, s: seq<T>, start: nat, end: nat, k: nat)
    requires StrictWeakOrder(less)
    requires start <= k <= end < |s|
    requires Heap(less, s, start, end, start)
    ensures !less(s[start], s[k])
    decreases k
  {
    if k == start {
      assert Laws(less, s[k], s[k], s[k]);
    } else {
      var parent := start + (k - start - 1) / 2;
      RootIsMaximal(less, s, start, end, parent);
      assert NodeOk(less, s, start, end, parent);
      NotBeforeTransitive(less, s[k], s[parent], s[start]);
    }
  }

  ghost predicate IsChild(start: nat, parent: nat, c: nat) {
    start <= parent && (c == Left(start, parent) || c == Left(start, parent) + 1)
  }

  /**
   The state of heapify: only the node at i may violate the heap order, and its parent
   (unless i is where the descent began) is not before the children of i.
   */
  ghost predicate Sifting<T>(
    less: (T, T) -> bool, s: seq<T>, start: nat, end: nat, from: nat, parent: nat, i: nat)
  {
    && start <= from <= i <= end < |s|
    && HeapBut(less, s, start, end, from, i)
    && (i == from ||
        (from <= parent < i && IsChild(start, parent, i) && AboveChildren(less, s, start, end, i, s[parent])))
  }

  /** c is a child of i that i comes before, and no child of i comes after c. */
  ghost predicate LargestChild<T>(less: (T, T) -> bool, s: seq<T>, start: nat, end: nat, i: nat, c: nat) {
    && start <= i && c <= end < |s|
    && IsChild(start, i, c)
    && less(s[i], s[c])
    && AboveChildren(less, s, start, end, i, s[c])
  }

  lemma SiftStep<T(!new)>(
    less: (T, T) -> bool, s: seq<T>, start: nat, end: nat, from: nat, parent: nat, i: nat, c: nat)
    requires StrictWeakOrder(less)
    requires Sifting(less, s, start, end, from, parent, i)
    requires LargestChild(less, s, start, end, i, c)
    ensures Sifting(less, Swapped(s, i, c), start, end, from, i, c)
  {
    var t := Swapped(s, i, c);
    Asymmetric(less, s[i], s[c]);
    forall k | from <= k <= end && k != c ensures NodeOk(less, t, start, end, k) {
      if k != i {
        assert NodeOk(less, s, start, end, k);
      }
    }
    assert NodeOk(less, s, start, end, c);
  }

  /** Comparing i with its left child, and the larger of the two with the right child, finds the largest child. */
  lemma LargerRight<T(!new)>(less: (T, T) -> bool, s: seq<T>, start: nat, end: nat, i: nat, largest: nat)
    requires StrictWeakOrder(less)
    requires start <= i && Left(start, i) + 1 <= end < |s|
    requires largest == if less(s[i], s[Left(start, i)]) then Left(start, i) else i
    requires less(s[largest], s[Left(start, i) + 1])
    ensures LargestChild(less, s, start, end, i, Left(start, i) + 1)
  {
    var l, r := s[Left(start, i)], s[Left(start, i) + 1];
    assert Laws(less, s[i], l, r) && Laws(less, s[i], r, l) && Laws(less, r, r, r);
    if largest != i {
      Asymmetric(less, l, r);
    }
  }

  lemma LargerLeft<T(!new)>(less: (T, T) -> bool, s: seq<T>, start: nat, end: nat, i: nat)
    requires StrictWeakOrder(less)
    requires start <= i && Left(start, i) <= end < |s|
    requires less(s[i], s[Left(start, i)])
    requires Left(start, i) + 1 <= end ==> !less(s[Left(start, i)], s[Left(start, i) + 1])
    ensures LargestChild(less, s, start, end, i, Left(start, i))
  {
    var l := s[Left(start, i)];
    assert Laws(less, l, l, l);
  }

  /** Twice the number of levels below the node at i: the comparisons heapify may still make. */
  ghost function SiftBudget(start: nat, end: nat, i: nat): nat
    requires start <= i <= end
  {
    2 * Log2((end - start + 1) / (i - start + 1))
  }

  lemma SiftBudgetDescend(start: nat, end: nat, i: nat, c: nat)
    requires start <= i && c <= end && IsChild(start, i, c)
    ensures i < c && SiftBudget(start, end, c) + 2 <= SiftBudget(start, end, i)
  {
    Log2Descend(end - start + 1, i - start + 1, c - start + 1);
  }

  /** One round of heapify: the largest of the node at i and its children. */
  method PickLargest<T(!new)>(a: array<T>, start: nat, end: nat, i: nat, comp: Comparer<T>) returns (largest: nat)
    requires start <= i <= end < a.Length
    requires StrictWeakOrder(comp.less)
    modifies comp
    ensures if largest == i then NodeOk(comp.less, a[..], start, end, i)
            else LargestChild(comp.less, a[..], start, end, i, largest)
    ensures comp.calls <= old(comp.calls) + SiftBudget(start, end, i)
    ensures comp.calls <= old(comp.calls) + 2
  {
    var left: nat := 2 * i + 1 - start;
    var right: nat := left + 1;
    largest := i;
    if left <= end {
      SiftBudgetDescend(start, end, i, left);
      var below := comp.Less(a[i], a[left]);
      if below {
        largest := left;
      }
    }
    if right <= end {
      var below := comp.Less(a[largest], a[right]);
      if below {
        LargerRight(comp.less, a[..], start, end, i, largest);
        largest := right;
      }
    }
    if largest == left {
      LargerLeft(comp.less, a[..], start, end, i);
    }
  }

  /**
   If every node of [i0, end] but i0 itself is already the root of a heap, then afterwards
   so is i0. Only elements of [i0, end] move.
   */
  method Heapify<T(!new)>(a: array<T>, start: nat, end: nat, i0: nat, comp: Comparer<T>)
    requires start <= i0 <= end < a.Length
    requires StrictWeakOrder(comp.less)
    requires HeapBut(comp.less, a[..], start, end, i0, i0)
    modifies a, comp
    ensures Heap(comp.less, a[..], start, end, i0)
    ensures Rearranged(old(a[..]), a[..], i0, end + 1)
    ensures comp.calls <= old(comp.calls) + SiftBudget(start, end, i0)
  {
    ghost var s0 := a[..];
    ghost var parent: nat := i0;
    var i := i0;
    var keepGoing := true;
    while keepGoing
      invariant Rearranged(s0, a[..], i0, end + 1)
      invariant Sifting(comp.less, a[..], start, end, i0, parent, i)
      invariant keepGoing || NodeOk(comp.less, a[..], start, end, i)
      invariant comp.calls + (if keepGoing then SiftBudget(start, end, i) else 0)
             <= old(comp.calls) + SiftBudget(start, end, i0)
      decreases keepGoing, end - i
    {
      ghost var s := a[..];
      var largest := PickLargest(a, start, end, i, comp);
      assert a[..] == s;
      keepGoing := largest != i;
      if keepGoing {
        SiftStep(comp.less, s, start, end, i0, parent, i, largest);
        SiftBudgetDescend(start, end, i, largest);
        RearrangedSwap(s0, s, i, largest, i0, end + 1);
        Exchange(a, i, largest);
        parent, i := i, largest;
      }
    }
  }

  lemma SiftBudgetBound(start: nat, end: nat, i: nat, size: nat)
    requires start <= i <= end && end - start < size
    ensures SiftBudget(start, end, i) <= 2 * Log2(size)
  {
    var n := end - start + 1;
    var q := n / (i - start + 1);
    assert q <= n by {
      assert q * (i - start + 1) <= n;
      assert q * 1 <= q * (i - start + 1);
    }
    Log2Monotone(q, size);
  }

  /** Insertion sort of at most 30 elements stays below the bound for heapsort. */
  lemma SmallSortCost(m: nat, c: nat)
    requires 1 <= m <= 30
    requires 2 * c <= m * (m - 1) + 2 * (m - 1)
    ensures c <= 4 * (m * Log2(m))
  {
    if m > 1 {
      SmallLog2(m);
      SmallSortArithmetic(m, c, Log2(m));
    }
  }

  lemma SmallSortArithmetic(m: nat, c: nat, l: nat)
    requires 1 <= m < 8 * l
    requires 2 * c <= m * (m - 1) + 2 * (m - 1)
    ensures c <= 4 * (m * l)
  {
    var d := 8 * l - m - 1;
    MulNonNegative(m, d);
    assert m * (m - 1) == m * m - m;
    assert m * d == 8 * (m * l) - m * m - m;
  }

  lemma SmallLog2(m: nat)
    requires 2 <= m <= 30
    ensures m + 1 <= 8 * Log2(m)
  {
    if m >= 16 {
      Log2Monotone(16, m);
    } else if m >= 8 {
      Log2Monotone(8, m);
    } else if m >= 4 {
      Log2Monotone(4, m);
    }
  }

  /** No element of s[k..hi] is before any element of s[lo..k]. */
  ghost predicate Split<T>(less: (T, T) -> bool, s: seq<T>, lo: nat, k: nat, hi: nat)
    requires hi <= |s|
  {
    forall p, q :: lo <= p < k <= q < hi ==> !less(s[q], s[p])
  }

  /** Moving the root behind the heap extends the sorted suffix by one. */
  lemma ExtractStep<T(!new)>(less: (T, T) -> bool, s: seq<T>, t: seq<T>, lo: nat, i: nat, hi: nat)
    requires StrictWeakOrder(less)
    requires lo < i < hi <= |s|
    requires Heap(less, s, lo, i, lo) && Split(less, s, lo, i + 1, hi) && Sorted(less, s, i + 1, hi)
    requires Rearranged(Swapped(s, i, lo), t, lo, i)
    ensures Split(less, t, lo, i, hi) && Sorted(less, t, i, hi)
  {
    var u := Swapped(s, i, lo);
    forall p, q | lo <= p < i <= q < hi ensures !less(t[q], t[p]) {
      var m := RearrangedOrigin(u, t, lo, i, p);
      if q == i {
        RootIsMaximal(less, s, lo, i, if m == lo then i else m);
      }
    }
  }

  /** After the root has been replaced, only the root may violate the order of the smaller heap. */
  lemma ExtractHeap<T>(less: (T, T) -> bool, s: seq<T>, lo: nat, i: nat)
    requires lo < i < |s|
    requires Heap(less, s, lo, i, lo)
    ensures HeapBut(less, Swapped(s, i, lo), lo, i - 1, lo, lo)
  {
    var u, end := Swapped(s, i, lo), i - 1;
    forall k | lo < k <= end ensures NodeOk(less, u, lo, end, k) {
      assert NodeOk(less, s, lo, i, k);
    }
  }

  /** What heapsort establishes step by step: a heap in front of a sorted range of larger elements. */
  ghost predicate Extracting<T>(less: (T, T) -> bool, s: seq<T>, lo: nat, i: nat, hi: nat)
  {
    && lo <= i < hi <= |s|
    && Heap(less, s, lo, i, lo)
    && Split(less, s, lo, i + 1, hi)
    && Sorted(less, s, i + 1, hi)
  }

  lemma ExtractRound<T(!new)>(less: (T, T) -> bool, s0: seq<T>, s: seq<T>, t: seq<T>, lo: nat, i: nat, hi: nat)
    requires StrictWeakOrder(less)
    requires lo < i && Extracting(less, s, lo, i, hi) && Rearranged(s0, s, lo, hi)
    requires Rearranged(Swapped(s, i, lo), t, lo, i) && Heap(less, t, lo, i - 1, lo)
    ensures Extracting(less, t, lo, i - 1, hi) && Rearranged(s0, t, lo, hi)
  {
    ExtractStep(less, s, t, lo, i, hi);
    RearrangedSwap(s0, s, i, lo, lo, hi);
    RearrangedThen(s0, Swapped(s, i, lo), t, lo, hi, lo, i);
  }

  lemma ExtractingDone<T>(less: (T, T) -> bool, s: seq<T>, lo: nat, hi: nat)
    requires Extracting(less, s, lo, lo, hi)
    ensures Sorted(less, s, lo, hi)
  {
  }

  method BuildHeap<T(!new)>(a: array<T>, left: nat, right: nat, comp: Comparer<T>)
    requires left <= right < a.Length
    requires StrictWeakOrder(comp.less)
    modifies a, comp
    ensures Heap(comp.less, a[..], left, right, left)
    ensures Rearranged(old(a[..]), a[..], left, right + 1)
    ensures comp.calls <= old(comp.calls) + 2 * Log2(right - left + 1) * ((right - left) / 2 + 1)
  {
    ghost var s0, levels, top := a[..], 2 * Log2(right - left + 1), left + (right - left) / 2;
    ghost var done := 0;
    var i := left + (right - left) / 2;
    while true
      invariant left <= i <= right && done == top - i
      invariant Heap(comp.less, a[..], left, right, i + 1)
      invariant Rearranged(s0, a[..], left, right + 1)
      invariant comp.calls <= old(comp.calls) + levels * done
      decreases i
    {
      ghost var s := a[..];
      SiftBudgetBound(left, right, i, right - left + 1);
      Heapify(a, left, right, i, comp);
      RearrangedThen(s0, s, a[..], left, right + 1, i, right + 1);
      assert levels * (done + 1) == levels * done + levels;
      done := done + 1;
      if i == left {
        break;
      }
      i := i - 1;
    }
  }

  /** One round of the extraction loop: the root moves behind the heap, which is repaired. */
  method ExtractMax<T(!new)>(a: array<T>, left: nat, i: nat, right: nat, comp: Comparer<T>, ghost s0: seq<T>)
    requires left < i <= right < a.Length
    requires StrictWeakOrder(comp.less)
    requires Extracting(comp.less, a[..], left, i, right + 1)
    requires Rearranged(s0, a[..], left, right + 1)
    modifies a, comp
    ensures Extracting(comp.less, a[..], left, i - 1, right + 1)
    ensures Rearranged(s0, a[..], left, right + 1)
    ensures comp.calls <= old(comp.calls) + 2 * Log2(right - left + 1)
  {
    ghost var s := a[..];
    ExtractHeap(comp.less, s, left, i);
    hide *;
    Exchange(a, i, left);
    SiftBudgetBound(left, i - 1, left, right - left + 1);
    Heapify(a, left, i - 1, left, comp);
    ExtractRound(comp.less, s0, s, a[..], left, i, right + 1);
  }

  method ExtractAll<T(!new)>(a: array<T>, left: nat, right: nat, comp: Comparer<T>)
    requires left <= right < a.Length
    requires StrictWeakOrder(comp.less)
    requires Heap(comp.less, a[..], left, right, left)
    modifies a, comp
    ensures Sorted(comp.less, a[..], left, right + 1)
    ensures Rearranged(old(a[..]), a[..], left, right + 1)
    ensures comp.calls <= old(comp.calls) + 2 * Log2(right - left + 1) * (right - left)
  {
    ghost var s0, levels := a[..], 2 * Log2(right - left + 1);
    ghost var done := 0;
    var i := right;
    while i > left
      invariant left <= i <= right && done == right - i
      invariant Extracting(comp.less, a[..], left, i, right + 1)
      invariant Rearranged(s0, a[..], left, right + 1)
      invariant comp.calls <= old(comp.calls) + levels * done
    {
      ExtractMax(a, left, i, right, comp, s0);
      i := i - 1;
      assert levels * (done + 1) == levels * done + levels;
      done := done + 1;
    }
    ExtractingDone(comp.less, a[..], left, right + 1);
  }

  lemma HeapSortCost(m: nat, levels: nat)
    requires m >= 2
    ensures 2 * levels * ((m - 1) / 2 + 1) + 2 * levels * (m - 1) <= 4 * (m * levels)
  {
    var k := (m - 1) / 2 + 1 + (m - 1);
    assert 2 * levels * ((m - 1) / 2 + 1) + 2 * levels * (m - 1) == 2 * levels * k;
    assert levels * k <= levels * (2 * m);
  }

  method HeapSort<T(!new)>(a: array<T>, left: nat, right: nat, comp: Comparer<T>)
    requires left <= right < a.Length
    requires StrictWeakOrder(comp.less)
    modifies a, comp
    ensures Sorted(comp.less, a[..], left, right + 1)
    ensures Rearranged(old(a[..]), a[..], left, right + 1)
    ensures var m := right - left + 1; comp.calls <= old(comp.calls) + 4 * (m * Log2(m))
  {
    if right - left < 30 {
      ghost var m, s0 := right - left + 1, a[..];
      InversionsBound(comp.less, s0[left..right + 1]);
      ghost var exchanges := InsertionSort(a, left, right, comp);
      SmallSortCost(m, exchanges + (right - left));
      return;
    }
    ghost var s0 := a[..];
    BuildHeap(a, left, right, comp);
    ghost var s := a[..];
    ExtractAll(a, left, right, comp);
    RearrangedThen(s0, s, a[..], left, right + 1, left, right + 1);
    HeapSortCost(right - left + 1, Log2(right - left + 1));
  }
}
