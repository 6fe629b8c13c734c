/**
 Fixed-width integers: the ranges of the C++ integral types and wrap-around arithmetic in them.
 */
module FixedWidth {

  /** An integral type of 1 to 8 bytes. */
  datatype IntTypeBase = IntType(size: nat, signed: bool)

  type IntType = t: IntTypeBase | 1 <= t.size <= 8 witness IntType(1, false)

  function Pow256(k: nat): (p: nat)
    ensures p > 0
  {
    if k == 0 then 1 else 256 * Pow256(k - 1)
  }

  function Half(k: nat): nat
    requires k > 0
  {
    128 * Pow256(k - 1)
  }

  predicate InRange(t: IntType, v: int) {
    if t.signed then -(Half(t.size) as int) <= v < Half(t.size) else 0 <= v < Pow256(t.size)
  }

  /** The value of type t that agrees with x modulo 256^size (two's complement if signed). */
  function Wrap(t: IntType, x: int): int {
    var r := x % Pow256(t.size);
    if t.signed && r >= Half(t.size) then r - Pow256(t.size) else r
  }

  lemma Distribute(a: int, b: int, m: int)
    ensures (a + b) * m == a * m + b * m
    ensures (a - b) * m == a * m - b * m
  {
  }

  lemma AtLeastOneMultiple(d: int, m: int)
    requires d >= 1 && m > 0
    ensures d * m >= m
  {
  }

  /** Euclid: quotient and remainder are determined by x == q * m + r. */
  lemma DivModUnique(x: int, m: int, q: int, r: int)
    requires m > 0 && 0 <= r < m && x == q * m + r
    ensures x / m == q && x % m == r
  {
    var q', r' := x / m, x % m;
    assert x == q' * m + r';
    if q' > q {
      Distribute(q', q, m);
      AtLeastOneMultiple(q' - q, m);
    } else if q' < q {
      Distribute(q, q', m);
      AtLeastOneMultiple(q - q', m);
    }
  }

  lemma ModCongruent(x: int, y: int, k: int, m: int)
    requires m > 0 && x == y + k * m
    ensures x % m == y % m
  {
    var q, r := y / m, y % m;
    assert y == q * m + r;
    Distribute(q, k, m);
    DivModUnique(x, m, q + k, r);
  }

  lemma TwoHalves(k: nat)
    requires k > 0
    ensures Pow256(k) == 2 * Half(k)
  {
  }

  lemma WrapInRange(t: IntType, x: int)
    ensures InRange(t, Wrap(t, x))
  {
    TwoHalves(t.size);
  }

  lemma WrapCongruent(t: IntType, x: int) returns (k: int)
    ensures x == Wrap(t, x) + k * Pow256(t.size)
  {
    var m := Pow256(t.size);
    var q, r := x / m, x % m;
    assert x == q * m + r;
    k := if t.signed && r >= Half(t.size) then q + 1 else q;
    Distribute(q, 1, m);
  }

  /** Values that differ by a multiple of 256^size wrap to the same value. */
  lemma WrapSame(t: IntType, x: int, y: int, k: int)
    requires x == y + k * Pow256(t.size)
    ensures Wrap(t, x) == Wrap(t, y)
  {
    ModCongruent(x, y, k, Pow256(t.size));
  }

  /** Values in range are left alone. */
  lemma WrapIdentity(t: IntType, y: int)
    requires InRange(t, y)
    ensures Wrap(t, y) == y
  {
    var m := Pow256(t.size);
    TwoHalves(t.size);
    if y >= 0 {
      DivModUnique(y, m, 0, y);
    } else {
      DivModUnique(y, m, -1, y + m);
    }
  }

  /** Negating a wrapped value and wrapping again is the same as wrapping the negation. */
  lemma WrapNegate(t: IntType, x: int)
    ensures Wrap(t, -Wrap(t, x)) == Wrap(t, -x)
  {
    var k := WrapCongruent(t, x);
    Distribute(0, k, Pow256(t.size));
    WrapSame(t, -x, -Wrap(t, x), -k);
  }

  /** Shifting a wrapped value left by one byte and filling in b, wrapping at every step. */
  lemma WrapShift(t: IntType, x: int, b: int)
    ensures Wrap(t, Wrap(t, Wrap(t, x) * 256) + b) == Wrap(t, x * 256 + b)
  {
    var m := Pow256(t.size);
    var k := WrapCongruent(t, x);
    var y := Wrap(t, x) * 256;
    var j := WrapCongruent(t, y);
    Distribute(j, 256 * k, m);
    assert (256 * k) * m == 256 * (k * m);
    WrapSame(t, x * 256 + b, Wrap(t, y) + b, j + 256 * k);
  }
}
