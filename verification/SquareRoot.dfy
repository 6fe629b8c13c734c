/**
 The integer square root by exactly four Newton steps from a banded first guess
 (square_root): for every 32-bit value it is the real square root rounded up.
 */
module SquareRoots {

  /** The real square root rounded down. */
  ghost function FloorSqrt(v: nat): (s: nat)
    ensures s * s <= v < (s + 1) * (s + 1)
  {
    if v == 0 then 0
    else
      var s := FloorSqrt(v - 1);
      if (s + 1) * (s + 1) <= v then s + 1 else s
  }

  /** r is the real square root of v rounded up. */
  ghost predicate IsCeilSqrt(v: nat, r: nat) {
    v <= r * r && (r > 0 ==> (r - 1) * (r - 1) < v)
  }

  /** There is only one such r. */
  lemma CeilSqrtUnique(v: nat, r: nat, r': nat)
    requires IsCeilSqrt(v, r) && IsCeilSqrt(v, r')
    ensures r == r'
  {
    if r < r' {
      SquareMonotone(r, r' - 1);
    } else if r' < r {
      SquareMonotone(r', r - 1);
    }
  }

  lemma SquareMonotone(a: nat, b: nat)
    requires a <= b
    ensures a * a <= b * b
  {
    assert b * b - a * a == (b - a) * (b + a);
  }

  function Newton(v: nat, x: nat): nat
    requires x > 0
  {
    (x + v / x) / 2
  }

  lemma QuotientProduct(v: nat, x: nat)
    requires x > 0
    ensures v / x * x <= v < v / x * x + x
  {
    assert v == v / x * x + v % x;
  }

  /** A Newton step never drops below the root rounded down. */
  lemma NewtonLower(v: nat, s: nat, x: nat)
    requires x > 0 && s * s <= v
    ensures Newton(v, x) >= s
  {
    QuotientProduct(v, x);
    BelowRoot(s, x, v / x);
  }

  lemma BelowRoot(s: nat, x: nat, y: nat)
    ensures x + y < 2 * s ==> y * x + x <= s * s
  {
    var t := 2 * s - 1 - x;
    assert y <= t ==> (t - y) * x >= 0;
    assert (t - y) * x == t * x - y * x;
    assert t * x == 2 * s * x - x - x * x;
    assert (s - x) * (s - x) == x * x - 2 * s * x + s * s;
    NonNegativeSquare(s - x);
  }

  lemma NonNegativeSquare(z: int)
    ensures z * z >= 0
  {
  }

  /** An excess of at most b after the step, if the excess before it is small enough. */
  lemma NewtonUpper(v: nat, s: nat, x: nat, b: nat)
    requires x > 0 && v < (s + 1) * (s + 1)
    requires (x - s) * (x - s) + 2 * s < 2 * x * (b + 1)
    ensures Newton(v, x) <= s + b
  {
    QuotientProduct(v, x);
    AboveRoot(s, x, v / x, b);
  }

  lemma AboveRoot(s: nat, x: nat, y: nat, b: nat)
    ensures x + y >= 2 * (s + b + 1) ==> (x - s) * (x - s) + y * x >= s * s + 2 * x * (b + 1)
  {
    var t := 2 * (s + b + 1) - x;
    assert y >= t ==> (y - t) * x >= 0;
    assert (y - t) * x == y * x - t * x;
    assert t * x == 2 * s * x + 2 * x * (b + 1) - x * x;
    assert (x - s) * (x - s) == x * x - 2 * s * x + s * s;
  }

  /** If the third step is close enough, the fourth one and the final correction give the root rounded up. */
  lemma LastStep(v: nat, s: nat, x: nat)
    requires x > 0 && s <= x && s * s <= v < (s + 1) * (s + 1)
    requires s >= 1 && (x - s - 1) * (x - s - 1) <= 2 * s
    ensures s <= Newton(v, x) <= s + 1
    ensures v == s * s ==> Newton(v, x) == s
  {
    NewtonLower(v, s, x);
    var d := x - s;
    assert d * d <= 2 * s + 2 * d - 1 by {
      assert (d - 1) * (d - 1) == d * d - 2 * d + 1;
    }
    assert 2 * x * 2 == 4 * s + 4 * d;
    NewtonUpper(v, s, x, 1);
    if v == s * s {
      ExactRoot(s, x);
    }
  }

  lemma ExactRoot(s: nat, x: nat)
    requires x > 0 && s <= x && (x - s - 1) * (x - s - 1) <= 2 * s
    ensures Newton(s * s, x) <= s
  {
    QuotientProduct(s * s, x);
    AboveRoot(s, x, s * s / x, 0);
    assert (x - s - 1) * (x - s - 1) == (x - s) * (x - s) - 2 * x + 2 * s + 1;
  }

  lemma Correct(v: nat, s: nat, x: nat)
    requires s * s <= v < (s + 1) * (s + 1)
    requires s <= x <= s + 1 && (v == s * s ==> x == s)
    ensures IsCeilSqrt(v, if x * x < v then x + 1 else x)
  {
  }

  // ---------- how far the steps get in each band ----------

  /** From the first guess x0 the first step lands within b of the root. */
  lemma FirstStep(v: nat, s: nat, x0: nat, b: nat)
    requires x0 > 0 && s * s <= v < (s + 1) * (s + 1)
    requires (x0 - s) * (x0 - s) + 2 * s < 2 * x0 * (b + 1)
    ensures s <= Newton(v, x0) <= s + b
  {
    NewtonLower(v, s, x0);
    NewtonUpper(v, s, x0, b);
  }

  /** From an excess of d a step lands within b of the root. */
  lemma NextStep(v: nat, s: nat, d: nat, b: nat)
    requires s + d > 0 && s * s <= v < (s + 1) * (s + 1)
    requires d * d + 2 * s < 2 * (s + d) * (b + 1)
    ensures s <= Newton(v, s + d) <= s + b
  {
    NewtonLower(v, s, s + d);
    NewtonUpper(v, s, s + d, b);
  }

  /** Every excess up to b leads to one of at most b'. */
  ghost predicate StepOk(s: nat, d: nat, b': nat) {
    d * d + 2 * s < 2 * (s + d) * (b' + 1)
  }

  /** From x0 the excess is at most b1, b2 and b3 after one, two and three steps, and then small enough. */
  ghost predicate Chain(s: nat, x0: nat, b1: nat, b2: nat, b3: nat) {
    && s >= 1 && x0 >= 1
    && (x0 - s) * (x0 - s) + 2 * s < 2 * x0 * (b1 + 1)
    && (forall d: nat :: d <= b1 ==> StepOk(s, d, b2))
    && (forall d: nat :: d <= b2 ==> StepOk(s, d, b3))
    && (forall d: nat :: d <= b3 ==> CloseEnough(s, d))
  }

  ghost predicate CloseEnough(s: nat, d: nat) {
    (d - 1) * (d - 1) <= 2 * s
  }

  /** What the four steps must achieve for the final correction to be right. */
  ghost predicate Converged(v: nat, x: nat) {
    var s := FloorSqrt(v);
    s <= x <= s + 1 && (v == s * s ==> x == s)
  }

  /** Four Newton steps from x0 converge. */
  ghost predicate Converges(v: nat, x0: nat) {
    && x0 > 0 && var x1 := Newton(v, x0);
    && x1 > 0 && var x2 := Newton(v, x1);
    && x2 > 0 && var x3 := Newton(v, x2);
    && x3 > 0 && Converged(v, Newton(v, x3))
  }

  lemma ChainConverges(v: nat, x0: nat, b1: nat, b2: nat, b3: nat)
    requires Chain(FloorSqrt(v), x0, b1, b2, b3)
    ensures Converges(v, x0)
  {
    var s := FloorSqrt(v);
    hide Newton;
    FirstStep(v, s, x0, b1);
    var x1 := Newton(v, x0);
    assert StepOk(s, x1 - s, b2);
    NextStep(v, s, x1 - s, b2);
    var x2 := Newton(v, x1);
    assert StepOk(s, x2 - s, b3);
    NextStep(v, s, x2 - s, b3);
    var x3 := Newton(v, x2);
    assert CloseEnough(s, x3 - s);
    LastStep(v, s, x3);
  }

  /** The first guesses of the six bands. */
  function Guess(v: nat): nat {
    if v < 4096 then 45
    else if v < 65536 then 179
    else if v < 1048576 then 717
    else if v < 16777216 then 2867
    else if v < 268435456 then 11469
    else 45875
  }

  lemma RootInBand(v: nat, lo: nat, hi: nat)
    requires lo * lo <= v < hi * hi
    ensures lo <= FloorSqrt(v) < hi
  {
    var s := FloorSqrt(v);
    if s < lo {
      SquareMonotone(s + 1, lo);
    }
    if s >= hi {
      SquareMonotone(hi, s);
    }
  }

  /** The lowest band: roots from 2 to 63. */
  lemma LowBand(s: nat)
    requires 2 <= s <= 63
    ensures Chain(s, 45, 20, 9, 3)
  {
    assert (45 - s) * (45 - s) + 2 * s < 90 * 21 by {
      assert (s - 2) * (63 - s) >= 0;
    }
    forall d: nat | d <= 20 ensures StepOk(s, d, 9) {
      assert d * (20 - d) >= 0;
    }
    forall d: nat | d <= 9 ensures StepOk(s, d, 3) {
      assert d * (9 - d) >= 0;
    }
  }

  /** Three is the only value with root 1 that gets here. */
  lemma Three()
    ensures Converges(3, 45)
  {
    RootInBand(3, 1, 2);
  }

  lemma MulLe(x: nat, a: int, b: int)
    requires a <= b
    ensures x * a <= x * b
  {
  }

  /** A band [lo, 4 lo) of roots whose first guess is about 2.8 lo. */
  lemma MiddleBand(s: nat, lo: nat, x0: nat)
    requires (lo, x0) in {(64, 179), (256, 717), (1024, 2867), (4096, 11469)}
    requires lo <= s < 4 * lo
    ensures Chain(s, x0, 3 * s / 5, s / 8, s / 144 + 1)
  {
    MiddleFirst(s, lo, x0);
    hide StepOk, CloseEnough;
    forall d: nat | d <= 3 * s / 5 ensures StepOk(s, d, s / 8) {
      MiddleSecond(s, d);
    }
    var b3 := s / 144 + 1;
    forall d: nat | d <= s / 8 ensures StepOk(s, d, b3) {
      MiddleThird(s, d);
    }
    forall d: nat | d <= b3 ensures CloseEnough(s, d) {
      MiddleLast(s, d);
    }
  }

  lemma MiddleFirst(s: nat, lo: nat, x0: nat)
    requires (lo, x0) in {(64, 179), (256, 717), (1024, 2867), (4096, 11469)}
    requires lo <= s < 4 * lo
    ensures (x0 - s) * (x0 - s) + 2 * s < 2 * x0 * (3 * s / 5 + 1)
  {
    MulLe(s - lo, 0, 4 * lo - s);
    var ss, b := s * s, 3 * s / 5 + 1;
    assert 5 * b >= 3 * s + 1;
    if lo == 64 {
      assert ss <= 320 * s - 16384;
    } else if lo == 256 {
      assert ss <= 1280 * s - 262144;
    } else if lo == 1024 {
      assert ss <= 5120 * s - 4194304;
    } else {
      assert ss <= 20480 * s - 67108864;
    }
    assert (x0 - s) * (x0 - s) == x0 * x0 - 2 * x0 * s + ss;
  }

  lemma MiddleSecond(s: nat, d: nat)
    requires s >= 64 && 5 * d <= 3 * s
    ensures StepOk(s, d, s / 8)
  {
    var b := s / 8 + 1;
    MulLe(s + d, s, 8 * b);
    MulLe(d, 5 * d, 3 * s);
    MulLe(s, 5 * d, 3 * s);
    MulLe(s, 64, s);
    MiddleSecondLinear(s, s * s, s * d, d * d, (s + d) * b);
  }

  lemma MiddleSecondLinear(s: int, ss: int, sd: int, dd: int, tb: int)
    requires s > 0 && ss + sd <= 8 * tb && 5 * dd <= 3 * sd && 5 * sd <= 3 * ss && 64 * s <= ss
    ensures dd + 2 * s < 2 * tb
  {
  }

  lemma MiddleThird(s: nat, d: nat)
    requires s >= 64 && 8 * d <= s
    ensures StepOk(s, d, s / 144 + 1)
  {
    var b := s / 144 + 1;
    MulLe(s + d, s, 144 * b);
    MulLe(d, 8 * d, s);
    MulLe(s, 8 * d, s);
    MiddleThirdLinear(s, d, s * s, s * d, d * d, (s + d) * b);
    assert (s + d) * (b + 1) == (s + d) * b + s + d;
  }

  lemma MiddleThirdLinear(s: int, d: int, ss: int, sd: int, dd: int, tb: int)
    requires s > 0 && d >= 0 && ss + sd <= 144 * tb && 8 * dd <= sd && 8 * sd <= ss
    ensures d > 0 ==> dd + 2 * s < 2 * (tb + s + d)
    ensures d == 0 && dd == 0 && ss > 0 ==> dd + 2 * s < 2 * (tb + s + d)
  {
  }

  lemma MiddleLast(s: nat, d: nat)
    requires 64 <= s <= 16383 && d <= s / 144 + 1
    ensures CloseEnough(s, d)
  {
    if d >= 1 {
      var e := d - 1;
      MulLe(e, 144 * e, s);
      assert e * s <= 288 * s by {
        MulLe(s, e, 288);
      }
    }
  }

  /** The band of the roots from 16384 up to 65535. */
  lemma TopBand(s: nat)
    requires 16384 <= s <= 65535
    ensures Chain(s, 45875, 58 * s / 100, 107 * s / 1000, 52 * s / 10000 + 1)
  {
    TopFirst(s);
    hide StepOk, CloseEnough;
    var b2, b3 := 107 * s / 1000, 52 * s / 10000 + 1;
    forall d: nat | d <= 58 * s / 100 ensures StepOk(s, d, b2) {
      TopSecond(s, d);
    }
    forall d: nat | d <= b2 ensures StepOk(s, d, b3) {
      TopThird(s, d);
    }
    forall d: nat | d <= b3 ensures CloseEnough(s, d) {
      TopLast(s, d);
    }
  }

  lemma TopFirst(s: nat)
    requires 16384 <= s <= 65535
    ensures (45875 - s) * (45875 - s) + 2 * s < 2 * 45875 * (58 * s / 100 + 1)
  {
    MulLe(s - 16384, 0, 65536 - s);
    var ss, b := s * s, 58 * s / 100 + 1;
    assert 100 * b >= 58 * s + 1;
    assert ss <= 81920 * s - 1073741824;
    assert (45875 - s) * (45875 - s) == 45875 * 45875 - 2 * 45875 * s + ss;
  }

  lemma TopSecond(s: nat, d: nat)
    requires 16384 <= s <= 65535 && 100 * d <= 58 * s
    ensures StepOk(s, d, 107 * s / 1000)
  {
    var b := 107 * s / 1000 + 1;
    MulLe(s + d, 107 * s, 1000 * b);
    MulLe(d, 100 * d, 58 * s);
    MulLe(s, 100 * d, 58 * s);
    MulLe(s, 16384, s);
    TopSecondLinear(s, s * s, s * d, d * d, (s + d) * b);
  }

  lemma TopSecondLinear(s: int, ss: int, sd: int, dd: int, tb: int)
    requires s > 0 && 107 * (ss + sd) <= 1000 * tb
    requires 100 * dd <= 58 * sd && 100 * sd <= 58 * ss && 16384 * s <= ss
    ensures dd + 2 * s < 2 * tb
  {
  }

  lemma TopThird(s: nat, d: nat)
    requires 16384 <= s <= 65535 && 1000 * d <= 107 * s
    ensures StepOk(s, d, 52 * s / 10000 + 1)
  {
    var b := 52 * s / 10000 + 1;
    MulLe(s + d, 52 * s, 10000 * b);
    MulLe(d, 1000 * d, 107 * s);
    MulLe(s, 1000 * d, 107 * s);
    MulLe(s, 16384, s);
    TopThirdLinear(s, d, s * s, s * d, d * d, (s + d) * b);
    assert (s + d) * (b + 1) == (s + d) * b + s + d;
  }

  lemma TopThirdLinear(s: int, d: int, ss: int, sd: int, dd: int, tb: int)
    requires s > 0 && d >= 0 && 52 * (ss + sd) <= 10000 * tb
    requires 1000 * dd <= 107 * sd && 1000 * sd <= 107 * ss && 16384 * s <= ss
    ensures dd + 2 * s < 2 * (tb + s + d)
  {
  }

  lemma TopLast(s: nat, d: nat)
    requires 16384 <= s <= 65535 && d <= 52 * s / 10000 + 1
    ensures CloseEnough(s, d)
  {
    if d >= 1 {
      var e := d - 1;
      MulLe(e, 10000 * e, 52 * s);
      MulLe(s, 10000 * e, 52 * s);
      MulLe(s, s, 65535);
      TopLastLinear(s, s * s, e * s, e * e);
    }
  }

  lemma TopLastLinear(s: int, ss: int, es: int, ee: int)
    requires s >= 0 && 10000 * ee <= 52 * es && 10000 * es <= 52 * ss && ss <= 65535 * s
    ensures ee <= 2 * s
  {
  }

  /** Four steps from the guess of its band suffice for every 32-bit value from 3 on. */
  lemma GuessConverges(v: nat)
    requires 3 <= v <= 0xFFFF_FFFF
    ensures Converges(v, Guess(v))
  {
    hide Converges, Chain, Newton;
    var s := FloorSqrt(v);
    if v == 3 {
      Three();
    } else if v < 4096 {
      RootInBand(v, 2, 64);
      LowBand(s);
      ChainConverges(v, 45, 20, 9, 3);
    } else if v < 268435456 {
      var lo := if v < 65536 then 64 else if v < 1048576 then 256 else if v < 16777216 then 1024 else 4096;
      RootInBand(v, lo, 4 * lo);
      MiddleBand(s, lo, Guess(v));
      ChainConverges(v, Guess(v), 3 * s / 5, s / 8, s / 144 + 1);
    } else {
      RootInBand(v, 16384, 65536);
      TopBand(s);
      ChainConverges(v, 45875, 58 * s / 100, 107 * s / 1000, 52 * s / 10000 + 1);
    }
  }

  lemma SmallValues(v: nat)
    requires v < 3
    ensures IsCeilSqrt(v, v)
  {
  }

  /** The square root of a 32-bit value, rounded up. */
  method SquareRoot(value: nat) returns (root: nat)
    requires value <= 0xFFFF_FFFF
    ensures IsCeilSqrt(value, root)
  {
    if value < 3 {
      SmallValues(value);
      return value;
    }
    var x: nat := 45875;
    if value < 4096 {
      x := 45;
    } else if value < 65536 {
      x := 179;
    } else if value < 1048576 {
      x := 717;
    } else if value < 16777216 {
      x := 2867;
    } else if value < 268435456 {
      x := 11469;
    }
    GuessConverges(value);
    hide FloorSqrt, IsCeilSqrt, Newton;
    x := Newton(value, x);
    x := Newton(value, x);
    x := Newton(value, x);
    x := Newton(value, x);
    Correct(value, FloorSqrt(value), x);
    root := if x * x < value then x + 1 else x;
  }
}
