/**
 What the header of the sorting routines promises: that every element is *less* than the
 next one. A sorted range keeps that promise exactly when the input holds no two
 equivalent elements; what always holds is that no element comes after its successor.
 */
module SortPromise {
  import opened Ordering
  import opened Rearrangement

  ghost predicate StrictlyAscending<T>(less: (T, T) -> bool, s: seq<T>, lo: nat, hi: nat)
    requires hi <= |s|
  {
    forall i, j :: lo <= i < j < hi && j == i + 1 ==> less(s[i], s[j])
  }

  /** Two different positions of s[lo..hi] hold equivalent elements. */
  ghost predicate HasTies<T>(less: (T, T) -> bool, s: seq<T>, lo: nat, hi: nat)
    requires hi <= |s|
  {
    exists i, j :: lo <= i < j < hi && Equivalent(less, s[i], s[j])
  }

  lemma TwiceInMultiset<T>(u: seq<T>, p: nat, q: nat)
    requires p < q < |u| && u[p] == u[q]
    ensures multiset(u)[u[p]] >= 2
  {
    assert u == u[..q] + u[q..];
    assert u[p] == u[..q][p] && u[q] == u[q..][0];
    assert u[p] in multiset(u[..q]) && u[q] in multiset(u[q..]);
  }

  lemma TwoPositions<T>(u: seq<T>, x: T) returns (p: nat, q: nat)
    requires multiset(u)[x] >= 2
    ensures p < q < |u| && u[p] == x == u[q]
  {
    assert x in u;
    var m :| 0 <= m < |u| && u[m] == x;
    var v := u[..m] + u[m + 1..];
    assert u == u[..m] + [x] + u[m + 1..];
    assert multiset(u) == multiset(v) + multiset{x};
    assert x in multiset(v);
    var n :| 0 <= n < |v| && v[n] == x;
    p, q := if n < m then n else m, if n < m then m else n + 1;
  }

  lemma TiesSurvive<T>(less: (T, T) -> bool, s: seq<T>, t: seq<T>, lo: nat, hi: nat)
    requires Rearranged(s, t, lo, hi)
    requires HasTies(less, s, lo, hi)
    ensures HasTies(less, t, lo, hi)
  {
    var i, j :| lo <= i < j < hi && Equivalent(less, s[i], s[j]);
    var u, v := s[lo..hi], t[lo..hi];
    RearrangedSlice(s, t, lo, hi);
    assert u[i - lo] == s[i] && u[j - lo] == s[j];
    if s[i] == s[j] {
      TwiceInMultiset(u, i - lo, j - lo);
      var p, q := TwoPositions(v, s[i]);
      assert v[p] == t[lo + p] && v[q] == t[lo + q];
    } else {
      var m := RearrangedOrigin(t, s, lo, hi, i);
      var n := RearrangedOrigin(t, s, lo, hi, j);
      assert Equivalent(less, t[if m < n then m else n], t[if m < n then n else m]);
    }
  }

  lemma {:induction false} StrictPairs<T(!new)>(less: (T, T) -> bool, s: seq<T>, lo: nat, hi: nat, i: nat, j: nat)
    requires StrictWeakOrder(less)
    requires hi <= |s| && StrictlyAscending(less, s, lo, hi)
    requires lo <= i < j < hi
    ensures less(s[i], s[j])
    decreases j
  {
    if i + 1 < j {
      StrictPairs(less, s, lo, hi, i, j - 1);
      assert Laws(less, s[i], s[j - 1], s[j]);
    }
  }

  lemma StrictHasNoTies<T(!new)>(less: (T, T) -> bool, t: seq<T>, lo: nat, hi: nat)
    requires StrictWeakOrder(less)
    requires hi <= |t| && StrictlyAscending(less, t, lo, hi)
    ensures !HasTies(less, t, lo, hi)
  {
    forall i, j | lo <= i < j < hi ensures !Equivalent(less, t[i], t[j]) {
      StrictPairs(less, t, lo, hi, i, j);
    }
  }

  lemma SortedNotStrictHasTies<T>(less: (T, T) -> bool, t: seq<T>, lo: nat, hi: nat)
    requires hi <= |t| && Sorted(less, t, lo, hi)
    requires !StrictlyAscending(less, t, lo, hi)
    ensures HasTies(less, t, lo, hi)
  {
    var i, j :| lo <= i < j < hi && j == i + 1 && !less(t[i], t[j]);
    assert Equivalent(less, t[i], t[j]);
  }

  /** The promise of the header holds of the sorted range exactly when the input has no ties. */
  lemma StrictIffNoTies<T(!new)>(less: (T, T) -> bool, s: seq<T>, t: seq<T>, lo: nat, hi: nat)
    requires StrictWeakOrder(less)
    requires Rearranged(s, t, lo, hi) && Sorted(less, t, lo, hi)
    ensures StrictlyAscending(less, t, lo, hi) <==> !HasTies(less, s, lo, hi)
  {
    if StrictlyAscending(less, t, lo, hi) {
      StrictHasNoTies(less, t, lo, hi);
      if HasTies(less, s, lo, hi) {
        TiesSurvive(less, s, t, lo, hi);
      }
    } else {
      SortedNotStrictHasTies(less, t, lo, hi);
      TiesSurvive(less, t, s, lo, hi);
    }
  }

  /** Two equal elements already break the promise, whatever the order. */
  lemma EqualElementsBreakPromise(less: (int, int) -> bool)
    requires StrictWeakOrder(less)
    ensures !StrictlyAscending(less, [7, 7], 0, 2)
    ensures Sorted(less, [7, 7], 0, 2)
  {
    var s := [7, 7];
    assert Laws(less, 7, 7, 7);
    assert !less(s[0], s[1]);
  }
}
