/**
 The comparator of the sorting routines: any strict weak order, as std::less and
 every admissible C++ comparator are. `Comparer` is the function object that the
 routines call; its ghost counter records every call.
 */
module Ordering {

  ghost predicate Equivalent<T>(less: (T, T) -> bool, x: T, y: T) {
    !less(x, y) && !less(y, x)
  }

  /** The laws of a strict weak order on three given elements. */
  ghost predicate Laws<T>(less: (T, T) -> bool, x: T, y: T, z: T) {
    && !less(x, x)
    && (less(x, y) && less(y, z) ==> less(x, z))
    && (Equivalent(less, x, y) && Equivalent(less, y, z) ==> Equivalent(less, x, z))
  }

  ghost predicate StrictWeakOrder<T(!new)>(less: (T, T) -> bool) {
    forall x, y, z :: Laws(less, x, y, z)
  }

  /** s[lo..hi] is in order: no element comes before an earlier one. */
  ghost predicate Sorted<T>(less: (T, T) -> bool, s: seq<T>, lo: nat, hi: nat)
    requires hi <= |s|
  {
    forall i, j :: lo <= i < j < hi ==> !less(s[j], s[i])
  }

  lemma Asymmetric<T(!new)>(less: (T, T) -> bool, x: T, y: T)
    requires StrictWeakOrder(less) && less(x, y)
    ensures !less(y, x)
  {
    assert Laws(less, x, y, x);
  }

  /** "Not before" is transitive, which needs incomparability to be transitive. */
  lemma NotBeforeTransitive<T(!new)>(less: (T, T) -> bool, x: T, y: T, z: T)
    requires StrictWeakOrder(less)
    requires !less(y, x) && !less(z, y)
    ensures !less(z, x)
  {
    assert Laws(less, x, y, z) && Laws(less, z, x, y) && Laws(less, y, z, x);
  }

  class Comparer<T(!new)> {
    const less: (T, T) -> bool
    ghost var calls: nat

    constructor (less: (T, T) -> bool)
      ensures this.less == less && calls == 0
    {
      this.less := less;
      calls := 0;
    }

    method Less(x: T, y: T) returns (b: bool)
      modifies this
      ensures b == less(x, y)
      ensures calls == old(calls) + 1
    {
      b := less(x, y);
      calls := calls + 1;
    }
  }
}

/** Rearrangements of a slice of a sequence, the effect of any number of exchanges. */
module Rearrangement {

  /** t is s with the elements of s[lo..hi] permuted and everything else in place. */
  ghost predicate Rearranged<T>(s: seq<T>, t: seq<T>, lo: nat, hi: nat) {
    && lo <= hi <= |s| == |t|
    && (forall k :: 0 <= k < |s| && !(lo <= k < hi) ==> t[k] == s[k])
    && multiset(t) == multiset(s)
  }

  function Swapped<T>(s: seq<T>, i: nat, j: nat): seq<T>
    requires i < |s| && j < |s|
  {
    s[i := s[j]][j := s[i]]
  }

  method Exchange<T>(a: array<T>, i: nat, j: nat)
    requires i < a.Length && j < a.Length
    modifies a
    ensures a[..] == Swapped(old(a[..]), i, j)
  {
    a[i], a[j] := a[j], a[i];
  }

  lemma SwappedMultiset<T>(s: seq<T>, i: nat, j: nat)
    requires i < |s| && j < |s|
    ensures multiset(Swapped(s, i, j)) == multiset(s)
  {
  }

  /** One more exchange inside the slice. */
  lemma RearrangedSwap<T>(s: seq<T>, t: seq<T>, i: nat, j: nat, lo: nat, hi: nat)
    requires Rearranged(s, t, lo, hi)
    requires lo <= i < hi && lo <= j < hi
    ensures Rearranged(s, Swapped(t, i, j), lo, hi)
  {
    SwappedMultiset(t, i, j);
  }

  lemma RearrangedThen<T>(s: seq<T>, t: seq<T>, u: seq<T>, lo: nat, hi: nat, lo': nat, hi': nat)
    requires Rearranged(s, t, lo, hi)
    requires lo <= lo' && hi' <= hi
    requires Rearranged(t, u, lo', hi')
    ensures Rearranged(s, u, lo, hi)
  {
  }

  lemma MultisetOfParts<T>(s: seq<T>, lo: nat, hi: nat)
    requires lo <= hi <= |s|
    ensures multiset(s[lo..hi]) == multiset(s) - multiset(s[..lo]) - multiset(s[hi..])
  {
    assert s == s[..lo] + s[lo..hi] + s[hi..];
  }

  /** The slice itself holds the same elements, as often as before. */
  lemma RearrangedSlice<T>(s: seq<T>, t: seq<T>, lo: nat, hi: nat)
    requires Rearranged(s, t, lo, hi)
    ensures multiset(t[lo..hi]) == multiset(s[lo..hi])
  {
    MultisetOfParts(s, lo, hi);
    MultisetOfParts(t, lo, hi);
    assert s[..lo] == t[..lo] && s[hi..] == t[hi..];
  }

  /** Every element of the rearranged slice was somewhere in the slice before. */
  lemma RearrangedOrigin<T>(s: seq<T>, t: seq<T>, lo: nat, hi: nat, k: nat) returns (m: nat)
    requires Rearranged(s, t, lo, hi)
    requires lo <= k < hi
    ensures lo <= m < hi && t[k] == s[m]
  {
    RearrangedSlice(s, t, lo, hi);
    assert t[lo..hi][k - lo] == t[k];
    assert t[k] in multiset(t[lo..hi]);
    assert t[k] in s[lo..hi];
    var n :| 0 <= n < |s[lo..hi]| && s[lo..hi][n] == t[k];
    m := lo + n;
  }
}
