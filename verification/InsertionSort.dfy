/**
 Insertion sort of an array range (isort_array): sorted, stable, and the number of
 exchanges is exactly the number of inversions of the input.
 */
module InsertionSorting {
  import opened Ordering
  import opened Rearrangement

  /** The number of elements of s that come strictly after x in the order. */
  ghost function CountAbove<T>(less: (T, T) -> bool, s: seq<T>, x: T): nat {
    if s == [] then 0
    else CountAbove(less, s[..|s| - 1], x) + if less(x, s[|s| - 1]) then 1 else 0
  }

  /** The number of pairs of positions i < j with less(s[j], s[i]). */
  ghost function Inversions<T>(less: (T, T) -> bool, s: seq<T>): nat {
    if s == [] then 0
    else Inversions(less, s[..|s| - 1]) + CountAbove(less, s[..|s| - 1], s[|s| - 1])
  }

  /** The positions of elements that come after x, each paired with j. */
  ghost function AbovePairs<T>(less: (T, T) -> bool, s: seq<T>, x: T, j: nat): set<(nat, nat)> {
    set i: nat | i < |s| && less(x, s[i]) :: (i, j)
  }

  lemma {:induction false} CountAboveIsCardinality<T>(less: (T, T) -> bool, s: seq<T>, x: T, j: nat)
    ensures |AbovePairs(less, s, x, j)| == CountAbove(less, s, x)
  {
    if s == [] {
      assert AbovePairs(less, s, x, j) == {};
    } else {
      var u, n := s[..|s| - 1], |s| - 1;
      CountAboveIsCardinality(less, u, x, j);
      assert AbovePairs(less, s, x, j) == AbovePairs(less, u, x, j) + if less(x, s[n]) then {(n, j)} else {};
    }
  }

  ghost function InversionPairs<T>(less: (T, T) -> bool, s: seq<T>): set<(nat, nat)> {
    set i: nat, j: nat | i < j < |s| && less(s[j], s[i]) :: (i, j)
  }

  /** The number of inversions is the number of these pairs of positions. */
  lemma {:induction false} InversionsArePairs<T>(less: (T, T) -> bool, s: seq<T>)
    ensures |InversionPairs(less, s)| == Inversions(less, s)
  {
    if s == [] {
      assert InversionPairs(less, s) == {};
    } else {
      var u, n := s[..|s| - 1], |s| - 1;
      hide InversionPairs, AbovePairs, CountAbove;
      InversionsArePairs(less, u);
      CountAboveIsCardinality(less, u, s[n], n);
      InversionPairsSplit(less, u, s[n]);
      assert u + [s[n]] == s;
    }
  }

  lemma InversionPairsSplit<T>(less: (T, T) -> bool, u: seq<T>, x: T)
    ensures InversionPairs(less, u + [x]) == InversionPairs(less, u) + AbovePairs(less, u, x, |u|)
    ensures InversionPairs(less, u) !! AbovePairs(less, u, x, |u|)
  {
    var s := u + [x];
    forall i: nat, j: nat ensures (i, j) in InversionPairs(less, s) <==>
      (i, j) in InversionPairs(less, u) || (i, j) in AbovePairs(less, u, x, |u|)
    {
    }
  }

  /** The elements of s that are equivalent to x, in their order of appearance. */
  ghost function Class<T>(less: (T, T) -> bool, s: seq<T>, x: T): seq<T> {
    if s == [] then []
    else Class(less, s[..|s| - 1], x) + if Equivalent(less, x, s[|s| - 1]) then [s[|s| - 1]] else []
  }

  lemma ClassSnoc<T>(less: (T, T) -> bool, s: seq<T>, y: T, x: T)
    ensures Class(less, s + [y], x) == Class(less, s, x) + if Equivalent(less, x, y) then [y] else []
  {
    assert (s + [y])[..|s|] == s;
  }

  /** A class picks elements out one by one. */
  lemma {:induction false} ClassOfConcat<T>(less: (T, T) -> bool, s: seq<T>, t: seq<T>, x: T)
    ensures Class(less, s + t, x) == Class(less, s, x) + Class(less, t, x)
    decreases |t|
  {
    if t == [] {
      assert s + t == s;
    } else {
      hide Class;
      var u, y := t[..|t| - 1], t[|t| - 1];
      assert t == u + [y] && s + t == (s + u) + [y];
      ClassSnoc(less, u, y, x);
      ClassSnoc(less, s + u, y, x);
      ClassOfConcat(less, s, u, x);
    }
  }

  /** It picks out the elements equivalent to x and no others. */
  lemma ClassOfOne<T>(less: (T, T) -> bool, y: T, x: T)
    ensures Class(less, [y], x) == if Equivalent(less, x, y) then [y] else []
  {
    ClassSnoc(less, [], y, x);
    assert [] + [y] == [y];
  }

  /** Equivalent elements appear in t in the same order as in s. */
  ghost predicate SameClasses<T(!new)>(less: (T, T) -> bool, s: seq<T>, t: seq<T>) {
    forall x :: Class(less, s, x) == Class(less, t, x)
  }

  lemma {:induction false} CountAboveSwap<T>(less: (T, T) -> bool, s: seq<T>, k: nat, x: T)
    requires k + 1 < |s|
    ensures CountAbove(less, Swapped(s, k, k + 1), x) == CountAbove(less, s, x)
  {
    var t, n := Swapped(s, k, k + 1), |s| - 1;
    if k + 1 == n {
      assert s[..n][..n - 1] == t[..n][..n - 1];
    } else {
      assert t[..n] == Swapped(s[..n], k, k + 1);
      CountAboveSwap(less, s[..n], k, x);
    }
  }

  lemma InversionsSnoc<T>(less: (T, T) -> bool, s: seq<T>, x: T)
    ensures Inversions(less, s + [x]) == Inversions(less, s) + CountAbove(less, s, x)
  {
    assert (s + [x])[..|s|] == s;
  }

  lemma CountAboveSnoc<T>(less: (T, T) -> bool, s: seq<T>, y: T, x: T)
    ensures CountAbove(less, s + [y], x) == CountAbove(less, s, x) + if less(x, y) then 1 else 0
  {
    assert (s + [y])[..|s|] == s;
  }

  /** Exchanging two neighbours that are out of order removes exactly one inversion. */
  lemma {:induction false} InversionsSwap<T(!new)>(less: (T, T) -> bool, s: seq<T>, k: nat)
    requires StrictWeakOrder(less)
    requires k + 1 < |s| && less(s[k + 1], s[k])
    ensures Inversions(less, s) == Inversions(less, Swapped(s, k, k + 1)) + 1
  {
    hide Inversions, CountAbove;
    var t, n := Swapped(s, k, k + 1), |s| - 1;
    assert s == s[..n] + [s[n]] && t == t[..n] + [t[n]];
    InversionsSnoc(less, s[..n], s[n]);
    InversionsSnoc(less, t[..n], t[n]);
    if k + 1 == n {
      Asymmetric(less, s[n], s[k]);
      var u := s[..k];
      assert s[..n] == u + [s[k]] && t[..n] == u + [s[n]];
      InversionsSnoc(less, u, s[k]);
      InversionsSnoc(less, u, s[n]);
      CountAboveSnoc(less, u, s[k], s[n]);
      CountAboveSnoc(less, u, s[n], s[k]);
    } else {
      assert t[..n] == Swapped(s[..n], k, k + 1);
      InversionsSwap(less, s[..n], k);
      CountAboveSwap(less, s[..n], k, s[n]);
    }
  }

  /** Exchanging two neighbours that are not equivalent keeps every class in order. */
  lemma {:induction false} ClassSwap<T>(less: (T, T) -> bool, s: seq<T>, k: nat, x: T)
    requires k + 1 < |s|
    requires !(Equivalent(less, x, s[k]) && Equivalent(less, x, s[k + 1]))
    ensures Class(less, Swapped(s, k, k + 1), x) == Class(less, s, x)
  {
    var t, n := Swapped(s, k, k + 1), |s| - 1;
    if k + 1 == n {
      assert s[..n][..k] == t[..n][..k];
    } else {
      assert t[..n] == Swapped(s[..n], k, k + 1);
      ClassSwap(less, s[..n], k, x);
    }
  }

  lemma SameClassesSwap<T(!new)>(less: (T, T) -> bool, s: seq<T>, t: seq<T>, k: nat)
    requires StrictWeakOrder(less)
    requires SameClasses(less, s, t)
    requires k + 1 < |t| && less(t[k + 1], t[k])
    ensures SameClasses(less, s, Swapped(t, k, k + 1))
  {
    forall x ensures Class(less, s, x) == Class(less, Swapped(t, k, k + 1), x) {
      assert Laws(less, t[k + 1], x, t[k]);
      ClassSwap(less, t, k, x);
    }
  }

  lemma {:induction false} CountAboveNone<T>(less: (T, T) -> bool, s: seq<T>, x: T)
    requires forall i :: 0 <= i < |s| ==> !less(x, s[i])
    ensures CountAbove(less, s, x) == 0
  {
    if s != [] {
      CountAboveNone(less, s[..|s| - 1], x);
    }
  }

  /** A range has no inversions exactly when it is sorted. */
  lemma {:induction false} SortedIffNoInversions<T>(less: (T, T) -> bool, s: seq<T>)
    ensures Sorted(less, s, 0, |s|) <==> Inversions(less, s) == 0
  {
    if s != [] {
      var u, x := s[..|s| - 1], s[|s| - 1];
      SortedIffNoInversions(less, u);
      if Sorted(less, s, 0, |s|) {
        CountAboveNone(less, u, x);
      } else if Inversions(less, s) == 0 {
        CountAboveZero(less, u, x);
      }
    }
  }

  lemma {:induction false} CountAboveZero<T>(less: (T, T) -> bool, s: seq<T>, x: T)
    requires CountAbove(less, s, x) == 0
    ensures forall i :: 0 <= i < |s| ==> !less(x, s[i])
  {
    if s != [] {
      CountAboveZero(less, s[..|s| - 1], x);
    }
  }

  /** All pairs of s[lo..hi] are in order, except those whose later member is at pos. */
  ghost predicate SortedBut<T>(less: (T, T) -> bool, s: seq<T>, lo: nat, hi: nat, pos: nat)
    requires hi <= |s|
  {
    forall i, j :: lo <= i < j < hi && j != pos ==> !less(s[j], s[i])
  }

  /** Moving the misplaced element one step down keeps the other pairs in order. */
  lemma SortedButStep<T(!new)>(less: (T, T) -> bool, s: seq<T>, lo: nat, hi: nat, pos: nat)
    requires StrictWeakOrder(less)
    requires lo < pos < hi <= |s|
    requires SortedBut(less, s, lo, hi, pos) && less(s[pos], s[pos - 1])
    ensures SortedBut(less, Swapped(s, pos, pos - 1), lo, hi, pos - 1)
  {
    Asymmetric(less, s[pos], s[pos - 1]);
  }

  /** Once the misplaced element is not before its neighbour, the range is sorted. */
  lemma SortedButDone<T(!new)>(less: (T, T) -> bool, s: seq<T>, lo: nat, hi: nat, pos: nat)
    requires StrictWeakOrder(less)
    requires lo <= pos < hi <= |s|
    requires SortedBut(less, s, lo, hi, pos)
    requires pos == lo || !less(s[pos], s[pos - 1])
    ensures Sorted(less, s, lo, hi)
  {
    forall i | lo <= i < pos ensures !less(s[pos], s[i]) {
      if i < pos - 1 {
        NotBeforeTransitive(less, s[i], s[pos - 1], s[pos]);
      }
    }
  }

  /** t is what k exchanges of neighbours that are out of order make of s, all inside [lo..hi]. */
  ghost predicate Exchanged<T(!new)>(less: (T, T) -> bool, s: seq<T>, t: seq<T>, lo: nat, hi: nat, k: nat)
    decreases k
  {
    if k == 0 then
      s == t
    else
      exists u, pos: nat :: ExchangedLast(less, u, t, lo, hi, pos) && Exchanged(less, s, u, lo, hi, k - 1)
  }

  ghost predicate ExchangedLast<T>(less: (T, T) -> bool, u: seq<T>, t: seq<T>, lo: nat, hi: nat, pos: nat) {
    lo < pos < hi <= |u| && less(u[pos], u[pos - 1]) && t == Swapped(u, pos, pos - 1)
  }

  lemma ExchangedStep<T(!new)>(
    less: (T, T) -> bool, s: seq<T>, u: seq<T>, lo: nat, hi: nat, k: nat, pos: nat)
    requires Exchanged(less, s, u, lo, hi, k)
    requires lo < pos < hi <= |u| && less(u[pos], u[pos - 1])
    ensures Exchanged(less, s, Swapped(u, pos, pos - 1), lo, hi, k + 1)
  {
    assert ExchangedLast(less, u, Swapped(u, pos, pos - 1), lo, hi, pos);
  }

  lemma SwappedSlice<T>(u: seq<T>, pos: nat, lo: nat, hi: nat)
    requires lo < pos < hi <= |u|
    ensures Swapped(u, pos, pos - 1)[lo..hi] == Swapped(u[lo..hi], pos - 1 - lo, pos - lo)
    ensures u[lo..hi][pos - 1 - lo] == u[pos - 1] && u[lo..hi][pos - lo] == u[pos]
  {
  }

  lemma SliceInversionsSwap<T(!new)>(less: (T, T) -> bool, u: seq<T>, t: seq<T>, lo: nat, hi: nat, pos: nat)
    requires StrictWeakOrder(less)
    requires ExchangedLast(less, u, t, lo, hi, pos)
    ensures Inversions(less, u[lo..hi]) == Inversions(less, t[lo..hi]) + 1
  {
    SwappedSlice(u, pos, lo, hi);
    InversionsSwap(less, u[lo..hi], pos - 1 - lo);
  }

  lemma SliceClassesSwap<T(!new)>(
    less: (T, T) -> bool, s: seq<T>, u: seq<T>, t: seq<T>, lo: nat, hi: nat, pos: nat)
    requires StrictWeakOrder(less)
    requires ExchangedLast(less, u, t, lo, hi, pos)
    requires SameClasses(less, s, u[lo..hi])
    ensures SameClasses(less, s, t[lo..hi])
  {
    SwappedSlice(u, pos, lo, hi);
    SameClassesSwap(less, s, u[lo..hi], pos - 1 - lo);
  }

  /** Whatever exchanges of out-of-order neighbours are made, the range is permuted. */
  lemma {:induction false} ExchangedRearranges<T(!new)>(
    less: (T, T) -> bool, s: seq<T>, t: seq<T>, lo: nat, hi: nat, k: nat)
    requires lo <= hi <= |s|
    requires Exchanged(less, s, t, lo, hi, k)
    ensures Rearranged(s, t, lo, hi)
    decreases k
  {
    if k > 0 {
      var u, pos: nat :| ExchangedLast(less, u, t, lo, hi, pos) && Exchanged(less, s, u, lo, hi, k - 1);
      ExchangedRearranges(less, s, u, lo, hi, k - 1);
      RearrangedSwap(s, u, pos, pos - 1, lo, hi);
    }
  }

  /** They keep equivalent elements in their original order. */
  lemma {:induction false} ExchangedClasses<T(!new)>(
    less: (T, T) -> bool, s: seq<T>, t: seq<T>, lo: nat, hi: nat, k: nat)
    requires StrictWeakOrder(less)
    requires lo <= hi <= |s|
    requires Exchanged(less, s, t, lo, hi, k)
    requires |s| == |t|
    ensures SameClasses(less, s[lo..hi], t[lo..hi])
    decreases k
  {
    if k > 0 {
      var u, pos: nat :| ExchangedLast(less, u, t, lo, hi, pos) && Exchanged(less, s, u, lo, hi, k - 1);
      ExchangedClasses(less, s, u, lo, hi, k - 1);
      SliceClassesSwap(less, s[lo..hi], u, t, lo, hi, pos);
    }
  }

  /** Each of them removes exactly one inversion. */
  lemma {:induction false} ExchangedInversions<T(!new)>(
    less: (T, T) -> bool, s: seq<T>, t: seq<T>, lo: nat, hi: nat, k: nat)
    requires StrictWeakOrder(less)
    requires lo <= hi <= |s|
    requires Exchanged(less, s, t, lo, hi, k)
    requires |s| == |t|
    ensures k + Inversions(less, t[lo..hi]) == Inversions(less, s[lo..hi])
    decreases k
  {
    if k > 0 {
      var u, pos: nat :| ExchangedLast(less, u, t, lo, hi, pos) && Exchanged(less, s, u, lo, hi, k - 1);
      ExchangedInversions(less, s, u, lo, hi, k - 1);
      SliceInversionsSwap(less, u, t, lo, hi, pos);
    }
  }

  lemma SortedByExchanges<T(!new)>(
    less: (T, T) -> bool, s: seq<T>, t: seq<T>, lo: nat, hi: nat, k: nat)
    requires StrictWeakOrder(less)
    requires lo <= hi <= |s| == |t|
    requires Exchanged(less, s, t, lo, hi, k) && Sorted(less, t, lo, hi)
    ensures Rearranged(s, t, lo, hi)
    ensures SameClasses(less, s[lo..hi], t[lo..hi])
    ensures k == Inversions(less, s[lo..hi])
  {
    assert SameClasses(less, s[lo..hi], t[lo..hi]) by {
      ExchangedClasses(less, s, t, lo, hi, k);
    }
    assert k == Inversions(less, s[lo..hi]) by {
      ExchangedInversions(less, s, t, lo, hi, k);
      SortedIffNoInversions(less, t[lo..hi]);
    }
    ExchangedRearranges(less, s, t, lo, hi, k);
  }

  /** There are at most as many inversions as pairs of elements. */
  lemma {:induction false} InversionsBound<T>(less: (T, T) -> bool, s: seq<T>)
    ensures 2 * Inversions(less, s) <= |s| * (|s| - 1)
  {
    if s != [] {
      var u := s[..|s| - 1];
      InversionsBound(less, u);
      CountAboveBound(less, u, s[|s| - 1]);
      var n := |s|;
      assert n * (n - 1) == (n - 1) * (n - 2) + 2 * (n - 1);
    }
  }

  lemma {:induction false} CountAboveBound<T>(less: (T, T) -> bool, s: seq<T>, x: T)
    ensures CountAbove(less, s, x) <= |s|
  {
    if s != [] {
      CountAboveBound(less, s[..|s| - 1], x);
    }
  }

  /** The inner loop: moves the element at i down to its place among the sorted elements before it. */
  method InsertDown<T(!new)>(
    a: array<T>, left: nat, i: nat, comp: Comparer<T>, ghost s0: seq<T>, ghost hi: nat, ghost k0: nat)
    returns (ghost k: nat)
    requires left < i < hi <= a.Length
    requires StrictWeakOrder(comp.less)
    requires Sorted(comp.less, a[..], left, i)
    requires Exchanged(comp.less, s0, a[..], left, hi, k0)
    modifies a, comp
    ensures Sorted(comp.less, a[..], left, i + 1)
    ensures Exchanged(comp.less, s0, a[..], left, hi, k)
    ensures k0 <= k
    ensures comp.calls <= old(comp.calls) + (k - k0) + 1
  {
    k := k0;
    ghost var s := a[..];
    var pos, j := i, i - 1;
    while true
      invariant left <= j && pos == j + 1 <= i
      invariant a[..] == s
      invariant SortedBut(comp.less, s, left, i + 1, pos)
      invariant Exchanged(comp.less, s0, s, left, hi, k)
      invariant comp.calls - old(comp.calls) == k - k0 == i - pos
      decreases j
    {
      var before := comp.Less(a[pos], a[j]);
      if !before {
        break;
      }
      ExchangedStep(comp.less, s0, s, left, hi, k, pos);
      SortedButStep(comp.less, s, left, i + 1, pos);
      Exchange(a, pos, j);
      s := Swapped(s, pos, pos - 1);
      k := k + 1;
      pos := j;
      if j == left {
        break;
      }
      j := j - 1;
    }
    SortedButDone(comp.less, s, left, i + 1, pos);
  }

  method InsertionSort<T(!new)>(a: array<T>, left: nat, right: nat, comp: Comparer<T>) returns (ghost exchanges: nat)
    requires left <= right < a.Length
    requires StrictWeakOrder(comp.less)
    modifies a, comp
    ensures Sorted(comp.less, a[..], left, right + 1)
    ensures Rearranged(old(a[..]), a[..], left, right + 1)
    ensures SameClasses(comp.less, old(a[..])[left..right + 1], a[..][left..right + 1])
    ensures exchanges == Inversions(comp.less, old(a[..])[left..right + 1])
    ensures comp.calls <= old(comp.calls) + exchanges + (right - left)
  {
    ghost var s0, n := a[..], right + 1;
    exchanges := 0;
    var i := left + 1;
    while i <= right
      invariant left < i <= n
      invariant Sorted(comp.less, a[..], left, i)
      invariant Exchanged(comp.less, s0, a[..], left, n, exchanges)
      invariant comp.calls <= old(comp.calls) + exchanges + (i - left - 1)
    {
      exchanges := InsertDown(a, left, i, comp, s0, n, exchanges);
      i := i + 1;
    }
    SortedByExchanges(comp.less, s0, a[..], left, n, exchanges);
  }
}
