/**
 Powers of two over the reals, and binary floating point formats in the sense of section
 3.3 of IEEE 754-2008: numbers k * 2^q with a bounded count of binary digits.
 */
module BinaryReals {
  import opened Arithmetic

  ghost function Pow2(e: int): (r: real)
    ensures r > 0.0
    decreases if e < 0 then -e else e
  {
    if e == 0 then 1.0 else if e > 0 then 2.0 * Pow2(e - 1) else Pow2(e + 1) / 2.0
  }

  function IntPow2(n: nat): (p: nat)
    ensures p > 0
  {
    if n == 0 then 1 else 2 * IntPow2(n - 1)
  }

  /** x * 2^e, what std::ldexp computes. */
  ghost function Scale(x: real, e: int): real {
    x * Pow2(e)
  }

  lemma Pow2Next(e: int)
    ensures Pow2(e + 1) == 2.0 * Pow2(e)
  {
  }

  lemma ScaleNext(x: real, e: int)
    ensures Scale(x, e + 1) == 2.0 * Scale(x, e)
  {
    Pow2Next(e);
    hide Pow2;
    DoubleProduct(x, Pow2(e), Pow2(e + 1));
  }

  lemma DoubleProduct(x: real, y: real, z: real)
    requires z == 2.0 * y
    ensures x * z == 2.0 * (x * y)
  {
  }

  lemma ScaleByNothing(x: real)
    ensures Scale(x, 0) == x
  {
  }

  lemma ScaleOne(e: int)
    ensures Scale(1.0, e) == Pow2(e)
  {
  }

  /** Scaling by 2^a and then by 2^b is scaling by 2^(a + b). */
  lemma {:induction false} ScaleAdd(x: real, a: int, b: int)
    ensures Scale(Scale(x, a), b) == Scale(x, a + b)
    decreases if b < 0 then -b else b
  {
    hide Scale;
    var y := Scale(x, a);
    if b == 0 {
      ScaleByNothing(y);
    } else if b > 0 {
      ScaleAdd(x, a, b - 1);
      ScaleNext(x, a + b - 1);
      ScaleNext(y, b - 1);
    } else {
      ScaleAdd(x, a, b + 1);
      ScaleNext(x, a + b);
      ScaleNext(y, b);
    }
  }

  lemma ScaleOrder(x: real, y: real, e: int)
    ensures x < y <==> Scale(x, e) < Scale(y, e)
    ensures x == y <==> Scale(x, e) == Scale(y, e)
  {
    hide Pow2;
  }

  lemma ScaleAbs(x: real, e: int)
    ensures AbsR(Scale(x, e)) == Scale(AbsR(x), e)
  {
    hide Pow2;
  }

  lemma {:induction false} ScaleInteger(k: int, n: nat)
    ensures Scale(k as real, n) == (k * IntPow2(n)) as real
  {
    hide Scale;
    if n == 0 {
      ScaleByNothing(k as real);
    } else {
      ScaleInteger(k, n - 1);
      ScaleNext(k as real, n - 1);
      assert k * IntPow2(n) == 2 * (k * IntPow2(n - 1));
    }
  }

  lemma {:induction false} Pow2Monotone(a: int, b: int)
    requires a <= b
    ensures Pow2(a) <= Pow2(b)
    decreases b - a
  {
    hide Pow2;
    if a < b {
      Pow2Monotone(a, b - 1);
      Pow2Next(b - 1);
    }
  }

  lemma Pow2Order(a: int, b: int)
    requires Pow2(a) < Pow2(b)
    ensures a < b
  {
    hide Pow2;
    if b <= a {
      Pow2Monotone(b, a);
    }
  }

  /** x has at most p binary digits: x == k * 2^q with |k| < 2^p. */
  ghost predicate HasDigits(x: real, p: nat) {
    exists k: int, q: int :: IsScaled(x, k, q, p)
  }

  ghost predicate IsScaled(x: real, k: int, q: int, p: nat) {
    AbsR(k as real) < Pow2(p) && x == Scale(k as real, q)
  }

  /**
   A floating point type as std::numeric_limits describes it: digits, min_exponent and
   max_exponent. Subnormal numbers go down to 2^(minExp - digits).
   */
  datatype Format = Format(digits: nat, minExp: int, maxExp: int)

  const FLOAT := Format(24, -125, 128)
  const DOUBLE := Format(53, -1021, 1024)
  const LONG_DOUBLE := Format(64, -16381, 16384)
  const QUAD := Format(113, -16381, 16384)

  /** x is a finite number of the format. */
  ghost predicate Representable(fmt: Format, x: real) {
    && AbsR(x) < Pow2(fmt.maxExp)
    && exists k: int, q: int :: fmt.minExp - fmt.digits <= q && IsScaled(x, k, q, fmt.digits)
  }

  /** What std::frexp returns: x == f * 2^exp with |f| in [1/2, 1), or zeros. */
  ghost predicate Frexp(x: real, f: real, exp: int) {
    && x == Scale(f, exp)
    && (if x == 0.0 then f == 0.0 && exp == 0 else 0.5 <= AbsR(f) < 1.0)
  }

  lemma FrexpBounds(x: real, f: real, exp: int)
    requires Frexp(x, f, exp) && x != 0.0
    ensures Pow2(exp - 1) <= AbsR(x) < Pow2(exp)
  {
    assert Pow2(-1) == 0.5;
    ScaleOne(-1);
    ScaleAdd(1.0, -1, exp);
    ScaleOne(exp - 1);
    ScaleOne(exp);
    hide Pow2, Scale;
    ScaleAbs(f, exp);
    ScaleOrder(AbsR(f), 1.0, exp);
    ScaleOrder(AbsR(f), 0.5, exp);
  }

  // ---------- every number has exactly one significand and exponent ----------

  lemma FrexpUnique(x: real, f: real, exp: int, f': real, exp': int)
    requires Frexp(x, f, exp) && Frexp(x, f', exp')
    ensures f == f' && exp == exp'
  {
    if x != 0.0 {
      FrexpBounds(x, f, exp);
      FrexpBounds(x, f', exp');
      hide Pow2, Scale;
      Pow2Order(exp - 1, exp');
      Pow2Order(exp' - 1, exp);
      ScaleOrder(f, f', exp);
    }
  }

  lemma {:induction false} Pow2Large(n: nat)
    ensures Pow2(n) >= n as real + 1.0
  {
    if n > 0 {
      Pow2Large(n - 1);
    }
  }

  /** Some power of two exceeds y. */
  lemma Pow2Above(y: real) returns (n: nat)
    requires y > 0.0
    ensures y < Pow2(n)
  {
    n := y.Floor;
    Pow2Large(n);
  }

  /** And some power of two is at most y. */
  lemma Pow2Below(y: real) returns (e: int)
    requires y > 0.0
    ensures Pow2(e) <= y
  {
    var n := Pow2Above(1.0 / y);
    e := -(n as int);
    ScaleOne(e);
    ScaleAdd(1.0, e, n);
    ScaleByNothing(1.0);
    assert Scale(y, n) == y * Pow2(n);
    hide Pow2, Scale;
    InverseProduct(y, Pow2(n));
    ScaleOrder(y, Pow2(e), n);
  }

  lemma InverseProduct(y: real, p: real)
    requires y > 0.0 && 1.0 / y < p
    ensures y * p >= 1.0
  {
    MulNonNegativeR(y, p - 1.0 / y);
    assert y * (p - 1.0 / y) == y * p - y * (1.0 / y);
  }

  lemma {:induction false} Pow2Between(y: real, lo: int, hi: int) returns (exp: int)
    requires lo < hi && Pow2(lo) <= y < Pow2(hi)
    ensures Pow2(exp - 1) <= y < Pow2(exp)
    decreases hi - lo
  {
    hide Pow2;
    if lo + 1 == hi {
      exp := hi;
    } else if y < Pow2(lo + 1) {
      exp := lo + 1;
    } else {
      exp := Pow2Between(y, lo + 1, hi);
    }
  }

  lemma FrexpExists(x: real) returns (f: real, exp: int)
    ensures Frexp(x, f, exp)
  {
    if x == 0.0 {
      f, exp := 0.0, 0;
    } else {
      var lo := Pow2Below(AbsR(x));
      var hi := Pow2Above(AbsR(x));
      Pow2Order(lo, hi);
      exp := Pow2Between(AbsR(x), lo, hi);
      f := Scale(x, -exp);
      ScaleAdd(x, -exp, exp);
      ScaleByNothing(x);
      ScaleAbs(f, exp);
      ScaleOne(exp);
      ScaleOne(exp - 1);
      ScaleOne(-1);
      ScaleAdd(1.0, -1, exp);
      assert Pow2(-1) == 0.5;
      hide Pow2, Scale;
      ScaleOrder(AbsR(f), 1.0, exp);
      ScaleOrder(AbsR(f), 0.5, exp);
    }
  }

  /** The significand and exponent that std::frexp returns. */
  ghost function FrexpOf(x: real): (r: (real, int))
    ensures Frexp(x, r.0, r.1)
  {
    assert exists f, exp :: Frexp(x, f, exp) by {
      var f, exp := FrexpExists(x);
    }
    var f, exp :| Frexp(x, f, exp);
    (f, exp)
  }

  lemma ScaledBounds(x: real, k: int, q: int, p: nat)
    requires IsScaled(x, k, q, p) && x != 0.0
    ensures Pow2(q) <= AbsR(x) < Pow2(p + q)
  {
    ScaleOne(q);
    ScaleOne(p);
    ScaleOne(p + q);
    ScaleAdd(1.0, p, q);
    ScaleAbs(k as real, q);
    assert k != 0;
    hide Pow2, Scale;
    ScaleOrder(AbsR(k as real), Pow2(p), q);
    ScaleOrder(AbsR(k as real), 1.0, q);
  }
}

/**
 The portable representation of floating point values (float_details): an integer mantissa
 and an exponent of two, with low-order zero bytes shifted out of the mantissa.
 */
module FloatDetailsModel {
  import opened Arithmetic
  import opened BinaryReals
  import opened FixedWidth
  import opened Streams
  import opened Codec
  import CodecTheorems
  import I = IntCode

  /** A floating point value; the sign of zero is not distinguished. */
  datatype Float = Finite(x: real) | PosInf | NegInf | NaN

  const IS_INF: int := 32000
  const IS_NINF: int := 32001
  const IS_NAN: int := 32002

  /** The number of mantissa digits kept: at most 63. */
  function KeptDigits(fmt: Format): nat {
    if fmt.digits < 63 then fmt.digits else 63
  }

  /** static_cast<int64> of a floating point value. */
  function Trunc(r: real): int {
    if r >= 0.0 then r.Floor else -((-r).Floor)
  }

  /** The real number that mantissa and exponent stand for. */
  ghost function ValueOf(mantissa: int, exponent: int): real {
    Scale(mantissa as real, exponent)
  }

  /** The compaction loop from its i-th round on. */
  function Compact(mantissa: int, exponent: int, i: nat): (int, int)
    decreases 8 - i
  {
    if i < 8 && mantissa % 256 == 0 then Compact(mantissa / 256, exponent + 8, i + 1) else (mantissa, exponent)
  }

  lemma {:induction false} CompactKeepsValue(mantissa: int, exponent: int, i: nat)
    ensures var (m, e) := Compact(mantissa, exponent, i); ValueOf(m, e) == ValueOf(mantissa, exponent)
    decreases 8 - i
  {
    hide Pow2, Scale;
    if i < 8 && mantissa % 256 == 0 {
      var m := mantissa / 256;
      assert mantissa == m * 256;
      ScaleInteger(m, 8);
      assert IntPow2(4) == 16 && IntPow2(8) == 256;
      ScaleAdd(m as real, 8, exponent);
      CompactKeepsValue(m, exponent + 8, i + 1);
    }
  }

  /** A nonzero mantissa below 2^64 ends with a nonzero byte; exponents grow by at most 64. */
  lemma {:induction false} CompactLowByte(mantissa: int, exponent: int, i: nat)
    requires i <= 8
    requires -(Pow256(8 - i) as int) < mantissa < Pow256(8 - i)
    ensures var (m, e) := Compact(mantissa, exponent, i);
            && (m == 0 <==> mantissa == 0)
            && (m != 0 ==> m % 256 != 0)
            && exponent <= e <= exponent + 8 * (8 - i)
            && I.Abs(m) <= I.Abs(mantissa)
    decreases 8 - i
  {
    if i < 8 && mantissa % 256 == 0 {
      assert Pow256(8 - i) == 256 * Pow256(8 - (i + 1));
      CompactLowByte(mantissa / 256, exponent + 8, i + 1);
    }
  }

  /** The loop shifts out k bytes, all zero, and stops at eight or at the first that is not. */
  lemma {:induction false} CompactShifts(mantissa: int, exponent: int, i: nat) returns (k: nat)
    requires i <= 8
    ensures var (m, e) := Compact(mantissa, exponent, i);
            && i + k <= 8
            && m * Pow256(k) == mantissa && e == exponent + 8 * k
            && (i + k < 8 ==> m % 256 != 0)
    decreases 8 - i
  {
    if i < 8 && mantissa % 256 == 0 {
      assert Compact(mantissa, exponent, i) == Compact(mantissa / 256, exponent + 8, i + 1);
      hide Compact;
      k := CompactShifts(mantissa / 256, exponent + 8, i + 1);
      OneMoreByte(mantissa, Compact(mantissa, exponent, i).0, k);
      k := k + 1;
    } else {
      k := 0;
    }
  }

  lemma OneMoreByte(mantissa: int, m: int, k: nat)
    requires mantissa % 256 == 0 && m * Pow256(k) == mantissa / 256
    ensures m * Pow256(k + 1) == mantissa
  {
    var p := Pow256(k);
    assert Pow256(k + 1) == 256 * p;
    assert m * (256 * p) == 256 * (m * p);
  }

  /** q is y without its fractional part. */
  ghost predicate WithoutFraction(q: int, y: real) {
    if y >= 0.0 then q as real <= y < q as real + 1.0 && q >= 0
    else q as real - 1.0 < y <= q as real && q <= 0
  }

  lemma TruncDropsFraction(y: real)
    ensures WithoutFraction(Trunc(y), y)
  {
  }

  /**
   What is stored for a finite number x = f * 2^exp, with d the smaller of 63 and the digits
   of the format: f * 2^d without its fractional part and exp - d, from which k zero bytes
   have been shifted out, as many as there are up to eight.
   */
  lemma StoredDetails(fmt: Format, x: real, f: real, exp: int, d: nat) returns (q: int, k: nat)
    requires Frexp(x, f, exp)
    requires d <= 63 && d <= fmt.digits && (d == 63 || d == fmt.digits)
    ensures WithoutFraction(q, Scale(f, d))
    ensures var (m, e) := DetailsOf(fmt, Finite(x));
            && k <= 8
            && m * Pow256(k) == q && e == exp - d + 8 * k
            && (k < 8 ==> m % 256 != 0)
  {
    FrexpUnique(x, f, exp, FrexpOf(x).0, FrexpOf(x).1);
    hide Scale, Trunc, Compact;
    q := Trunc(Scale(f, d));
    TruncDropsFraction(Scale(f, d));
    k := CompactShifts(q, exp - d, 0);
  }

  /** Zero is stored with the exponent left after eight shifts. */
  lemma StoredZero(fmt: Format, d: nat)
    requires d <= 63 && d <= fmt.digits && (d == 63 || d == fmt.digits)
    ensures DetailsOf(fmt, Finite(0.0)) == (0, 64 - d)
  {
    FrexpUnique(0.0, 0.0, 0, FrexpOf(0.0).0, FrexpOf(0.0).1);
    var q, k := StoredDetails(fmt, 0.0, 0.0, 0, d);
    assert q == 0;
    var m := DetailsOf(fmt, Finite(0.0)).0;
    assert m == 0 by {
      assert m * Pow256(k) == 0;
      ZeroFactor(m, Pow256(k));
    }
  }

  lemma ZeroFactor(m: int, p: nat)
    requires m * p == 0 && p > 0
    ensures m == 0
  {
  }

  /** The values that have no mantissa are told apart by their exponents. */
  lemma StoredSpecials(fmt: Format)
    ensures DetailsOf(fmt, PosInf) == (0, 32000)
    ensures DetailsOf(fmt, NegInf) == (0, 32001)
    ensures DetailsOf(fmt, NaN) == (0, 32002)
  {
  }

  /** For example, the number one as a double. */
  lemma StoredOne()
    ensures DetailsOf(DOUBLE, Finite(1.0)) == (16, -4)
  {
    var m := 0x10_0000_0000_0000;
    assert Pow2(1) == 2.0;
    FrexpUnique(1.0, 0.5, 1, FrexpOf(1.0).0, FrexpOf(1.0).1);
    ScaledOne();
    CompactsToOneByte();
    hide Scale, Compact, FrexpOf;
    TruncOfInteger(m);
  }

  lemma ScaledOne()
    ensures Scale(0.5, 53) == 0x10_0000_0000_0000 as real
  {
    IntPow2OfBytes(6);
    assert IntPow2(50) == 4 * IntPow2(48) && IntPow2(52) == 4 * IntPow2(50);
    assert Pow256(3) == 0x100_0000 && Pow256(6) == 0x1_0000_0000_0000;
    assert Scale(0.5, 1) == 1.0 by {
      ScaleNext(0.5, 0);
      ScaleByNothing(0.5);
    }
    ScaleAdd(0.5, 1, 52);
    ScaleInteger(1, 52);
  }

  lemma CompactsToOneByte()
    ensures Compact(0x10_0000_0000_0000, -52, 0) == (16, -4)
  {
    assert Compact(16, -4, 6) == (16, -4);
    assert Compact(0x1000, -12, 5) == (16, -4);
    assert Compact(0x10_0000, -20, 4) == (16, -4);
    assert Compact(0x1000_0000, -28, 3) == (16, -4);
    assert Compact(0x10_0000_0000, -36, 2) == (16, -4);
    assert Compact(0x1000_0000_0000, -44, 1) == (16, -4);
  }

  lemma TruncOfInteger(z: int)
    ensures Trunc(z as real) == z
  {
  }

  /** Scaled to d digits, the significand of a number with at most d digits is an integer, and only then. */
  lemma IntegerIffHasDigits(x: real, f: real, exp: int, d: nat)
    requires Frexp(x, f, exp)
    ensures Scale(f, d) == Trunc(Scale(f, d)) as real <==> HasDigits(x, d)
  {
    if HasDigits(x, d) {
      ScaledIsInteger(x, f, exp, d);
    }
    if Scale(f, d) == Trunc(Scale(f, d)) as real {
      IntegerHasDigits(x, f, exp, d);
    }
  }

  lemma IntegerHasDigits(x: real, f: real, exp: int, d: nat)
    requires Frexp(x, f, exp)
    requires Scale(f, d) == Trunc(Scale(f, d)) as real
    ensures HasDigits(x, d)
  {
    ScaleAdd(f, d, exp - d);
    ScaleAbs(f, d);
    ScaleOne(d);
    hide Pow2, Scale;
    ScaleOrder(AbsR(f), 1.0, d);
    assert IsScaled(x, Trunc(Scale(f, d)), exp - d, d);
  }

  lemma ScaledIsInteger(x: real, f: real, exp: int, d: nat)
    requires Frexp(x, f, exp) && HasDigits(x, d)
    ensures Scale(f, d) == Trunc(Scale(f, d)) as real
  {
    if x == 0.0 {
      assert Scale(f, d) == 0.0;
      TruncOfInteger(0);
    } else {
      var k: int, q: int :| IsScaled(x, k, q, d);
      FrexpBounds(x, f, exp);
      ScaledBounds(x, k, q, d);
      hide Pow2, Scale;
      Pow2Order(exp - 1, d + q);
      var j: nat := d + q - exp;
      ScaleAdd(f, d, exp - d);
      ScaleAdd(k as real, j, exp - d);
      ScaleOrder(Scale(f, d), Scale(k as real, j), exp - d);
      ScaleInteger(k, j);
      TruncOfInteger(k * IntPow2(j));
    }
  }

  /** Formats whose exponents a 16-bit exponent can hold, and that can hold any power up to 2^63. */
  predicate Portable(fmt: Format) {
    && 1 <= fmt.digits
    && -32000 <= fmt.minExp - fmt.digits <= 0
    && 63 <= fmt.maxExp <= 31000
  }

  lemma StandardFormatsArePortable()
    ensures Portable(FLOAT) && Portable(DOUBLE) && Portable(LONG_DOUBLE) && Portable(QUAD)
  {
  }

  /** The mantissa and exponent that represent a value. */
  ghost function DetailsOf(fmt: Format, val: Float): (int, int) {
    match val
    case Finite(x) => FiniteDetails(fmt, FrexpOf(x).0, FrexpOf(x).1)
    case PosInf => (0, IS_INF)
    case NegInf => (0, IS_NINF)
    case NaN => (0, IS_NAN)
  }

  /** The same for a finite value of which frexp has returned f and exp. */
  ghost function FiniteDetails(fmt: Format, f: real, exp: int): (int, int) {
    Compact(Trunc(Scale(f, KeptDigits(fmt))), exp - KeptDigits(fmt), 0)
  }

  /** val is a value of the format. */
  ghost predicate IsValueOf(fmt: Format, val: Float) {
    val.Finite? ==> Representable(fmt, val.x)
  }

  lemma ExponentBounds(fmt: Format, x: real, f: real, exp: int)
    requires Portable(fmt) && Representable(fmt, x) && Frexp(x, f, exp)
    ensures fmt.minExp - fmt.digits <= exp <= fmt.maxExp
  {
    if x != 0.0 {
      var k: int, q: int :| fmt.minExp - fmt.digits <= q && IsScaled(x, k, q, fmt.digits);
      FrexpBounds(x, f, exp);
      ScaledBounds(x, k, q, fmt.digits);
      hide Pow2, Scale;
      Pow2Order(exp - 1, fmt.maxExp);
      Pow2Order(q, exp);
    }
  }

  lemma ScaledMantissaBound(f: real, d: nat)
    requires AbsR(f) < 1.0 && d <= 63
    ensures I.Abs(Trunc(Scale(f, d))) < 0x8000_0000_0000_0000
  {
    ScaleAbs(f, d);
    ScaleInteger(1, d);
    hide Pow2, Scale;
    ScaleOrder(AbsR(f), 1.0, d);
    IntPow2Bound(d);
    TruncBelow(Scale(f, d), IntPow2(d));
  }

  lemma TruncBelow(y: real, n: nat)
    requires AbsR(y) < n as real
    ensures I.Abs(Trunc(y)) < n
  {
  }

  lemma {:induction false} IntPow2Monotone(a: nat, b: nat)
    requires a <= b
    ensures IntPow2(a) <= IntPow2(b)
  {
    if a < b {
      IntPow2Monotone(a, b - 1);
    }
  }

  lemma {:induction false} IntPow2OfBytes(k: nat)
    ensures IntPow2(8 * k) == Pow256(k)
  {
    if k > 0 {
      IntPow2OfBytes(k - 1);
      var n := 8 * (k - 1);
      assert IntPow2(n + 2) == 4 * IntPow2(n);
      assert IntPow2(n + 4) == 16 * IntPow2(n);
      assert IntPow2(n + 6) == 64 * IntPow2(n);
    }
  }

  lemma IntPow2At63()
    ensures IntPow2(63) == 0x8000_0000_0000_0000
  {
    IntPow2OfBytes(8);
    RangesOf();
    assert IntPow2(64) == 2 * IntPow2(63);
  }

  lemma IntPow2Bound(d: nat)
    requires d <= 63
    ensures IntPow2(d) <= 0x8000_0000_0000_0000
  {
    IntPow2Monotone(d, 63);
    IntPow2At63();
  }

  /**
   The representation always fits int64 and int16, a nonzero mantissa ends with a nonzero
   byte, and no finite value is mistaken for one of the special exponents.
   */
  lemma DetailsFit(fmt: Format, val: Float)
    requires Portable(fmt) && IsValueOf(fmt, val)
    ensures var (m, e) := DetailsOf(fmt, val);
            && InRange(INT64, m) && InRange(INT16, e)
            && (m != 0 ==> m % 256 != 0)
            && (val.Finite? <==> e < IS_INF)
  {
    RangesOf();
    if val.Finite? {
      FiniteDetailsFit(fmt, val.x);
    }
  }

  lemma FiniteDetailsFit(fmt: Format, x: real)
    requires Portable(fmt) && Representable(fmt, x)
    ensures var (m, e) := DetailsOf(fmt, Finite(x));
            && I.Abs(m) < 0x8000_0000_0000_0000
            && -32063 <= e <= 31064
            && (m != 0 ==> m % 256 != 0)
  {
    var d := KeptDigits(fmt);
    var (f, exp) := FrexpOf(x);
    ExponentBounds(fmt, x, f, exp);
    ScaledMantissaBound(f, d);
    RangesOf();
    hide Pow2, Scale, Compact, Representable;
    CompactLowByte(Trunc(Scale(f, d)), exp - d, 0);
  }

  lemma RangesOf()
    ensures Pow256(8) == 0x1_0000_0000_0000_0000
    ensures Half(8) == 0x8000_0000_0000_0000
    ensures Half(2) == 32768
  {
    assert Pow256(4) == 0x1_0000_0000;
    assert Pow256(8) == 0x1_0000_0000_0000_0000;
    TwoHalves(8);
  }

  lemma FewerDigits(x: real, p: nat, p': nat)
    requires HasDigits(x, p) && p <= p'
    ensures HasDigits(x, p')
  {
    var k: int, q: int :| IsScaled(x, k, q, p);
    Pow2Monotone(p, p');
    assert IsScaled(x, k, q, p');
  }

  /** A finite value is represented exactly if and only if 63 binary digits suffice for it. */
  lemma ExactIff63Digits(fmt: Format, x: real)
    requires Representable(fmt, x)
    ensures var (m, e) := DetailsOf(fmt, Finite(x)); ValueOf(m, e) == x <==> HasDigits(x, 63)
  {
    hide Pow2, Scale;
    var d := KeptDigits(fmt);
    var (f, exp) := FrexpOf(x);
    var m0 := Trunc(Scale(f, d));
    CompactKeepsValue(m0, exp - d, 0);
    ScaleAdd(f, d, exp - d);
    ScaleOrder(m0 as real, Scale(f, d), exp - d);
    IntegerIffHasDigits(x, f, exp, d);
    if fmt.digits <= 63 {
      assert HasDigits(x, fmt.digits);
      FewerDigits(x, fmt.digits, 63);
    }
  }

  /** In a format of at most 63 digits every finite value is represented exactly. */
  lemma ExactUpTo63Digits(fmt: Format, x: real)
    requires fmt.digits <= 63 && Representable(fmt, x)
    ensures var (m, e) := DetailsOf(fmt, Finite(x)); ValueOf(m, e) == x
  {
    hide Pow2, Scale;
    assert HasDigits(x, fmt.digits);
    FewerDigits(x, fmt.digits, 63);
    ExactIff63Digits(fmt, x);
  }

  /** The largest number below 2^64 of the 64-digit format. */
  const ALL_ONES: real := 18446744073709551615.0

  /** The 64-digit format has 2^64 - 1, but the representation loses its last digit. */
  lemma SixtyFourDigitsLose()
    ensures Representable(LONG_DOUBLE, ALL_ONES)
    ensures DetailsOf(LONG_DOUBLE, Finite(ALL_ONES)) == (9223372036854775807, 1)
    ensures ValueOf(9223372036854775807, 1) == ALL_ONES - 1.0
  {
    IntPow2Is64();
    Pow2OfInt(64);
    Pow2Monotone(64, 16384);
    ScaleByNothing(ALL_ONES);
    var f := ALL_ONES / 18446744073709551616.0;
    assert Scale(f, 64) == ALL_ONES;
    FrexpUnique(ALL_ONES, f, 64, FrexpOf(ALL_ONES).0, FrexpOf(ALL_ONES).1);
    hide Pow2, Scale, FrexpOf;
    assert IsScaled(ALL_ONES, 18446744073709551615, 0, 64);
    ScaleAdd(f, 63, 1);
    ScaleNext(Scale(f, 63), 0);
    ScaleByNothing(Scale(f, 63));
    assert Scale(f, 63) == ALL_ONES / 2.0;
    assert Trunc(Scale(f, 63)) == 9223372036854775807;
    ScaleNext(9223372036854775807.0, 0);
    ScaleByNothing(9223372036854775807.0);
  }

  lemma IntPow2Is64()
    ensures IntPow2(64) == 18446744073709551616
  {
    IntPow2At63();
  }

  lemma Pow2OfInt(n: nat)
    ensures Pow2(n) == IntPow2(n) as real
  {
    ScaleOne(n);
    ScaleInteger(1, n);
  }

  // ---------- reading back ----------

  /** A conversion of real numbers to a format that leaves the numbers of the format alone. */
  ghost predicate Rounds(fmt: Format, round: real -> Float) {
    forall x :: Representable(fmt, x) ==> round(x) == Finite(x)
  }

  /** std::ldexp in the receiving format. */
  ghost function Ldexp(v: Float, e: int, round: real -> Float): Float {
    match v
    case Finite(y) => round(Scale(y, e))
    case _ => v
  }

  ghost function ToFloat(mantissa: int, exponent: int, round: real -> Float): Float {
    if exponent < IS_INF then Ldexp(round(mantissa as real), exponent, round)
    else if exponent == IS_INF then PosInf
    else if exponent == IS_NINF then NegInf
    else NaN
  }

  /** Any mantissa with one of the special exponents, or a larger one, is read as such a value. */
  lemma ReadSpecials(mantissa: int, exponent: int, round: real -> Float)
    ensures exponent == 32000 ==> ToFloat(mantissa, exponent, round) == PosInf
    ensures exponent == 32001 ==> ToFloat(mantissa, exponent, round) == NegInf
    ensures exponent >= 32002 ==> ToFloat(mantissa, exponent, round) == NaN
  {
  }

  /** If m * 2^e is a number of the format, so is the integer m on the way there. */
  lemma MantissaRepresentable(fmt: Format, m: int, e: int)
    requires Portable(fmt) && I.Abs(m) < 0x8000_0000_0000_0000
    requires Representable(fmt, ValueOf(m, e))
    ensures Representable(fmt, m as real)
  {
    var x := ValueOf(m, e);
    var k: int, q: int :| fmt.minExp - fmt.digits <= q && IsScaled(x, k, q, fmt.digits);
    MantissaBelowMaximum(fmt, m);
    hide Pow2, Scale;
    // m == k * 2^(q - e)
    ScaleAdd(k as real, q - e, e);
    ScaleOrder(m as real, Scale(k as real, q - e), e);
    if q >= e {
      assert IsScaled(m as real, k, q - e, fmt.digits);
    } else {
      ScaleAdd(m as real, e - q, q - e);
      ScaleAdd(k as real, q - e, e - q);
      ScaleByNothing(k as real);
      ScaleInteger(m, e - q);
      IntegerAtMostMultiple(m, IntPow2(e - q), k);
      ScaleByNothing(m as real);
      assert IsScaled(m as real, m, 0, fmt.digits);
    }
  }

  lemma IntegerAtMostMultiple(m: int, p: int, k: int)
    requires p > 0 && k == m * p
    ensures I.Abs(m) <= I.Abs(k)
  {
    if m > 0 {
      assert m * (p - 1) >= 0;
    } else if m < 0 {
      assert -m * (p - 1) >= 0;
    }
  }

  lemma MantissaBelowMaximum(fmt: Format, m: int)
    requires Portable(fmt) && I.Abs(m) < 0x8000_0000_0000_0000
    ensures AbsR(m as real) < Pow2(fmt.maxExp)
  {
    ScaleOne(63);
    ScaleInteger(1, 63);
    IntPow2Bound(63);
    IntPow2At63();
    Pow2Monotone(63, fmt.maxExp);
  }

  /** A represented number reads back as itself in every format that has it. */
  lemma ExactReadBack(fmt: Format, round: real -> Float, m: int, e: int)
    requires Portable(fmt) && Rounds(fmt, round)
    requires e < IS_INF && I.Abs(m) < 0x8000_0000_0000_0000
    requires Representable(fmt, ValueOf(m, e))
    ensures ToFloat(m, e, round) == Finite(ValueOf(m, e))
  {
    MantissaRepresentable(fmt, m, e);
  }

  /**
   Writing a value of one format and reading it into another: infinities and NaN survive,
   and so does every finite value of at most 63 digits that the receiving format has.
   */
  lemma FloatReadsBack(
    fmt: Format, target: Format, round: real -> Float, val: Float, dest: Value, rest: seq<byte>)
    requires Portable(fmt) && Portable(target) && Rounds(target, round)
    requires IsValueOf(fmt, val)
    requires val.Finite? ==> HasDigits(val.x, 63) && Representable(target, val.x)
    ensures var (m, e) := DetailsOf(fmt, val);
            && IsOf(Codec.Float, FloatV(m, e))
            && Decode(Codec.Float, dest, Encode(Codec.Float, FloatV(m, e)) + rest) == Complete(FloatV(m, e), rest)
            && ToFloat(m, e, round) == val
  {
    var (m, e) := DetailsOf(fmt, val);
    DetailsFit(fmt, val);
    CodecTheorems.RoundTrip(Codec.Float, FloatV(m, e), dest, rest);
    if val.Finite? {
      ExactIff63Digits(fmt, val.x);
      FiniteDetailsFit(fmt, val.x);
      ExactReadBack(target, round, m, e);
    }
  }

  /** A number that needs more than 63 digits is cut to one that the receiving format has as well. */
  lemma CutNumberRepresentable(fmt: Format, target: Format, x: real)
    requires Representable(fmt, x) && Representable(target, x)
    requires !HasDigits(x, 63)
    ensures var (m, e) := DetailsOf(fmt, Finite(x)); Representable(target, ValueOf(m, e))
  {
    var (f, exp) := FrexpOf(x);
    MoreThan63Digits(fmt, x);
    hide Pow2, Scale, Representable, HasDigits, Frexp;
    CutToDigits(target, x, f, exp);
    CompactKeepsValue(Trunc(Scale(f, 63)), exp - 63, 0);
  }

  lemma CutToDigits(target: Format, x: real, f: real, exp: int)
    requires Representable(target, x) && Frexp(x, f, exp)
    requires !HasDigits(x, 63)
    ensures Representable(target, ValueOf(Trunc(Scale(f, 63)), exp - 63))
  {
    MoreThan63Digits(target, x);
    ZeroHasDigits(x);
    ExponentAbove(target, x, f, exp);
    CutIsSmaller(x, f, exp);
    ScaledMantissaBelow(f);
    Pow2Monotone(63, target.digits);
    hide Pow2, Scale, HasDigits;
    var m := Trunc(Scale(f, 63));
    assert IsScaled(ValueOf(m, exp - 63), m, exp - 63, target.digits);
  }

  lemma ZeroHasDigits(x: real)
    requires !HasDigits(x, 63)
    ensures x != 0.0
  {
    if x == 0.0 {
      assert IsScaled(x, 0, 0, 63);
    }
  }

  lemma MoreThan63Digits(fmt: Format, x: real)
    requires Representable(fmt, x) && !HasDigits(x, 63)
    ensures fmt.digits > 63
  {
    if fmt.digits <= 63 {
      assert HasDigits(x, fmt.digits);
      FewerDigits(x, fmt.digits, 63);
    }
  }

  lemma ExponentAbove(target: Format, x: real, f: real, exp: int)
    requires Representable(target, x) && Frexp(x, f, exp)
    requires !HasDigits(x, 63) && x != 0.0
    ensures target.minExp - target.digits <= exp - 63
  {
    var k: int, q: int :| target.minExp - target.digits <= q && IsScaled(x, k, q, target.digits);
    assert AbsR(k as real) >= Pow2(63) by {
      assert !IsScaled(x, k, q, 63);
    }
    FrexpBounds(x, f, exp);
    ScaleOne(63);
    ScaleOne(63 + q);
    ScaleAdd(1.0, 63, q);
    hide Pow2, Scale;
    ScaleAbs(k as real, q);
    ScaleOrder(AbsR(k as real), Pow2(63), q);
    Pow2Order(63 + q, exp);
  }

  lemma CutIsSmaller(x: real, f: real, exp: int)
    requires Frexp(x, f, exp)
    ensures AbsR(ValueOf(Trunc(Scale(f, 63)), exp - 63)) <= AbsR(x)
  {
    hide Pow2, Scale;
    var y := Scale(f, 63);
    ScaleAdd(f, 63, exp - 63);
    ScaleAbs(y, exp - 63);
    ScaleAbs(Trunc(y) as real, exp - 63);
    TruncTowardsZero(y);
    ScaleOrder(AbsR(y), AbsR(Trunc(y) as real), exp - 63);
  }

  lemma TruncTowardsZero(y: real)
    ensures AbsR(Trunc(y) as real) <= AbsR(y)
  {
  }

  lemma ScaledMantissaBelow(f: real)
    requires AbsR(f) < 1.0
    ensures AbsR(Trunc(Scale(f, 63)) as real) < Pow2(63)
  {
    ScaleAbs(f, 63);
    ScaleOne(63);
    hide Pow2, Scale;
    ScaleOrder(AbsR(f), 1.0, 63);
    TruncTowardsZero(Scale(f, 63));
  }

  /**
   Between any two portable formats, a finite number that both have survives if and only if
   63 binary digits suffice for it.
   */
  lemma ReadBackIff63Digits(
    fmt: Format, target: Format, round: real -> Float, x: real)
    requires Portable(fmt) && Portable(target) && Rounds(target, round)
    requires Representable(fmt, x) && Representable(target, x)
    ensures var (m, e) := DetailsOf(fmt, Finite(x));
            ToFloat(m, e, round) == Finite(x) <==> HasDigits(x, 63)
  {
    hide Scale, Representable, Frexp, HasDigits, ToFloat;
    var (m, e) := DetailsOf(fmt, Finite(x));
    FiniteDetailsFit(fmt, x);
    ExactIff63Digits(fmt, x);
    if !HasDigits(x, 63) {
      CutNumberRepresentable(fmt, target, x);
    }
    ExactReadBack(target, round, m, e);
  }

  /** f * (1 << n), computed with the integer power. */
  function ShiftUp(f: real, n: nat): (y: real)
    ensures y == Scale(f, n)
  {
    ScaleInteger(1, n);
    ScaleOne(n);
    f * IntPow2(n) as real
  }

  /** The object that holds the representation. */
  class FloatDetails {
    var mantissa: int
    var exponent: int

    constructor ()
      ensures mantissa == 0 && exponent == 0
    {
      mantissa := 0;
      exponent := 0;
    }

    /** Shifts zero bytes off the low end of the mantissa. */
    method ShiftOutZeros()
      modifies this
      ensures (mantissa, exponent) == Compact(old(mantissa), old(exponent), 0)
    {
      var i := 0;
      while i < 8 && mantissa % 256 == 0
        invariant i <= 8
        invariant Compact(mantissa, exponent, i) == Compact(old(mantissa), old(exponent), 0)
      {
        mantissa := mantissa / 256;
        exponent := exponent + 8;
        i := i + 1;
      }
    }

    /** Takes on the representation of val, given what std::frexp says of it if it is finite. */
    method ConvertFrom(fmt: Format, val: Float, f: real, exp: int)
      requires Portable(fmt) && IsValueOf(fmt, val)
      requires val.Finite? ==> Frexp(val.x, f, exp)
      modifies this
      ensures (mantissa, exponent) == DetailsOf(fmt, val)
      ensures InRange(INT64, mantissa) && InRange(INT16, exponent)
    {
      DetailsFit(fmt, val);
      if val.Finite? {
        FrexpUnique(val.x, f, exp, FrexpOf(val.x).0, FrexpOf(val.x).1);
      }
      hide Pow2, Scale, Representable, Frexp, Compact, InRange, Trunc, ShiftUp;
      mantissa := 0;
      match val
      case PosInf => exponent := IS_INF;
      case NegInf => exponent := IS_NINF;
      case NaN => exponent := IS_NAN;
      case Finite(_) =>
        var digits := KeptDigits(fmt);
        mantissa := Trunc(ShiftUp(f, digits));
        exponent := exp - digits;
        ShiftOutZeros();
    }
  }
}
