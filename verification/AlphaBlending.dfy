/**
 Assigning a pixel with an alpha channel to one without (the assign overloads for
 rgb_alpha sources): fixed-point blending of channels, one layer after another.
 */
module AlphaBlending {
  import opened Arithmetic
  import opened FixedWidth
  import opened Streams

  /** One channel of a source pixel with its opacity. */
  datatype Layer = Layer(value: byte, alpha: byte)

  datatype RgbAlpha = RgbAlpha(red: byte, green: byte, blue: byte, alpha: byte)

  /** What the documentation promises: src * (alpha / 255) + dest * (1 - alpha / 255). */
  function Composite(dest: real, l: Layer): real {
    l.value as real * (l.alpha as real / 255.0) + dest * (1.0 - l.alpha as real / 255.0)
  }

  /** The difference to the source, weighted with the opacity. */
  function Weighted(dest: int, l: Layer): int {
    (l.value - dest) * l.alpha
  }

  /** Subtraction of 32-bit unsigned integers. */
  function Subtract(x: int, y: int): int {
    (x - y) % 0x1_0000_0000
  }

  /** The rgb overload: 32-bit unsigned arithmetic, shifted right by 8, added with 8-bit wrap-around. */
  function BlendRgb(dest: byte, l: Layer): byte {
    if l.alpha == 255 then l.value
    else
      var temp := Subtract(l.value, dest);
      var scaled := temp * l.alpha % 0x1_0000_0000;
      (dest + scaled / 256 % 256) % 256
  }

  /** A grayscale pixel type of 8 or 16 bits, signed or unsigned: its smallest and largest value. */
  datatype GrayTypeBase = GrayType(min: int, max: int)

  type GrayType = g: GrayTypeBase | -0x8000 <= g.min <= 0 && 127 <= g.max <= 0xFFFF witness GrayType(0, 255)

  /** A value of the type. */
  predicate IsGray(g: GrayType, x: int) {
    g.min <= x <= g.max
  }

  /** assign_pixel saturates. */
  function Saturate(g: GrayType, x: int): (y: int)
    ensures IsGray(g, y)
  {
    if x < g.min then g.min else if x > g.max then g.max else x
  }

  /** C++ division of an int by 255, which truncates towards zero. */
  function DivideBy255(x: int): int {
    if x >= 0 then x / 255 else -(-x / 255)
  }

  /** The grayscale overload: signed arithmetic, divided by 255. */
  function BlendGray(g: GrayType, dest: int, l: Layer): (r: int)
    ensures IsGray(g, r)
  {
    if l.alpha == 255 then Saturate(g, l.value)
    else Saturate(g, DivideBy255((l.value - dest) * l.alpha) + dest)
  }

  /** The intensity of a colour source. */
  function Average(src: RgbAlpha): byte {
    (src.red + src.green + src.blue) / 3
  }

  /** avg is the mean of the three channels, rounded down. */
  predicate IsMean(avg: int, src: RgbAlpha) {
    3 * avg <= src.red + src.green + src.blue < 3 * avg + 3
  }

  lemma AverageIsMean(src: RgbAlpha)
    ensures IsMean(Average(src), src)
    ensures forall avg :: IsMean(avg, src) ==> avg == Average(src)
  {
  }

  lemma WeightedRange(dest: int, l: Layer)
    ensures dest <= l.value ==> 0 <= Weighted(dest, l) <= 255 * (l.value - dest)
    ensures l.value <= dest ==> 255 * (l.value - dest) <= Weighted(dest, l) <= 0
  {
    var x := l.value - dest;
    if x >= 0 {
      MulNonNegative(x, l.alpha);
      MulNonNegative(x, 255 - l.alpha);
    } else {
      MulNonNegative(-x, l.alpha);
      MulNonNegative(-x, 255 - l.alpha);
    }
    assert x * (255 - l.alpha) == 255 * x - x * l.alpha;
  }

  /** Reducing modulo 2^32 before multiplying does not matter for the bits 8 to 15. */
  lemma WrappedProduct(dest: byte, l: Layer)
    ensures Subtract(l.value, dest) * l.alpha % 0x1_0000_0000 / 256 % 256 == Weighted(dest, l) / 256 % 256
  {
    WeightedRange(dest, l);
    var x, p := l.value - dest, Weighted(dest, l);
    var k := if x < 0 then 1 else 0;
    assert Subtract(l.value, dest) == x + 0x1_0000_0000 * k;
    assert (x + 0x1_0000_0000 * k) * l.alpha == p + 0x1_0000_0000 * (k * l.alpha);
    var w := if p < 0 then p + 0x1_0000_0000 else p;
    DivModUnique(
      p + 0x1_0000_0000 * (k * l.alpha), 0x1_0000_0000, k * l.alpha - (if p < 0 then 1 else 0), w);
    HighByte(p);
  }

  lemma HighByte(p: int)
    ensures (p + 0x1_0000_0000) / 256 % 256 == p / 256 % 256
  {
    assert (p + 0x1_0000_0000) / 256 == p / 256 + 0x100_0000;
  }

  /** The wrap-around never shows: the result is dest plus the product divided by 256, rounded down. */
  lemma BlendRgbExact(dest: byte, l: Layer)
    ensures l.alpha < 255 ==> BlendRgb(dest, l) == dest + Weighted(dest, l) / 256
    ensures dest <= l.value ==> dest <= BlendRgb(dest, l) <= l.value
    ensures l.value <= dest ==> l.value <= BlendRgb(dest, l) <= dest
  {
    WeightedRange(dest, l);
    WrappedProduct(dest, l);
    if l.alpha < 255 {
      NoWrap(dest, l.value - dest, Weighted(dest, l));
    }
  }

  lemma NoWrap(dest: byte, x: int, p: int)
    requires 0 <= dest + x < 256
    requires if x >= 0 then 0 <= p <= 255 * x else 255 * x <= p <= 0
    ensures (dest + p / 256 % 256) % 256 == dest + p / 256
    ensures if x >= 0 then 0 <= p / 256 <= x else x <= p / 256 <= 0
  {
    var q := p / 256;
    assert 256 * q <= p < 256 * q + 256;
    if q < 0 {
      assert q % 256 == q + 256;
      assert (dest + q + 256) % 256 == dest + q;
    } else {
      assert q % 256 == q;
    }
  }

  /**
   The int arithmetic of the grayscale overload does not overflow, the result lies between
   both values, and it is only saturated if the type cannot hold the source value.
   */
  lemma BlendGrayExact(g: GrayType, dest: int, l: Layer)
    requires IsGray(g, dest)
    ensures -0x8000_0000 <= Weighted(dest, l) < 0x8000_0000
    ensures l.value <= g.max ==> BlendGray(g, dest, l) == dest + DivideBy255(Weighted(dest, l))
    ensures dest <= l.value ==> dest <= BlendGray(g, dest, l) <= l.value
    ensures l.value <= dest ==> l.value <= BlendGray(g, dest, l) <= dest
  {
    WeightedRange(dest, l);
    QuotientRange(l.value - dest, Weighted(dest, l));
    if l.alpha == 255 {
      DivideProduct(l.value - dest);
    }
  }

  lemma QuotientRange(x: int, p: int)
    requires if x >= 0 then 0 <= p <= 255 * x else 255 * x <= p <= 0
    ensures if x >= 0 then 0 <= DivideBy255(p) <= x else x <= DivideBy255(p) <= 0
  {
  }

  /** The quotient is the one of the absolute values, with the sign of x. */
  lemma TruncatesTowardsZero(x: int)
    ensures x >= 0 ==> 0 <= 255 * DivideBy255(x) <= x < 255 * DivideBy255(x) + 255
    ensures x <= 0 ==> 255 * DivideBy255(x) - 255 < x <= 255 * DivideBy255(x) <= 0
  {
  }

  /** A grayscale blend goes from dest towards the exact composite and stops less than one short of it. */
  lemma BlendGrayStopsShort(g: GrayType, dest: int, l: Layer)
    requires IsGray(g, dest) && l.value <= g.max
    ensures var r, exact := BlendGray(g, dest, l) as real, Composite(dest as real, l);
            if dest <= l.value then dest as real <= r <= exact < r + 1.0 else r - 1.0 < exact <= r <= dest as real
  {
    CompositeOfInts(dest, l);
    BlendGrayExact(g, dest, l);
    WeightedRange(dest, l);
    hide BlendGray, Composite, Weighted;
    var p := Weighted(dest, l);
    var q := DivideBy255(p);
    TruncatesTowardsZero(p);
    StopsShortLinear(p, q, Composite(dest as real, l) - dest as real);
  }

  lemma StopsShortLinear(p: int, q: int, e: real)
    requires 255.0 * e == p as real
    ensures 0 <= 255 * q <= p < 255 * q + 255 ==> q as real <= e < q as real + 1.0
    ensures 255 * q - 255 < p <= 255 * q <= 0 ==> q as real - 1.0 < e <= q as real
  {
  }

  /** A source value that the type cannot hold saturates. */
  lemma BlendGraySaturates(g: GrayType, dest: int, l: Layer)
    requires IsGray(g, dest)
    ensures l.alpha == 255 ==> BlendGray(g, dest, l) == if l.value <= g.max then l.value else g.max
  {
  }

  lemma DivideProduct(x: int)
    ensures DivideBy255(x * 255) == x
  {
  }

  // ---------- layers on top of each other ----------

  function RunRgb(dest: byte, layers: seq<Layer>): byte {
    if layers == [] then dest else BlendRgb(RunRgb(dest, layers[..|layers| - 1]), layers[|layers| - 1])
  }

  function RunGray(g: GrayType, dest: int, layers: seq<Layer>): (r: int)
    requires IsGray(g, dest)
    ensures IsGray(g, r)
  {
    if layers == [] then dest else BlendGray(g, RunGray(g, dest, layers[..|layers| - 1]), layers[|layers| - 1])
  }

  function RunExact(dest: real, layers: seq<Layer>): real {
    if layers == [] then dest else Composite(RunExact(dest, layers[..|layers| - 1]), layers[|layers| - 1])
  }

  /** Blending never leaves the range spanned by the first value and the layers. */
  lemma {:induction false} RunRgbStaysInRange(dest: byte, layers: seq<Layer>, lo: byte, hi: byte)
    requires lo <= dest <= hi
    requires forall l :: l in layers ==> lo <= l.value <= hi
    ensures lo <= RunRgb(dest, layers) <= hi
  {
    hide BlendRgb;
    if layers != [] {
      var n := |layers| - 1;
      RunRgbStaysInRange(dest, layers[..n], lo, hi);
      BlendRgbExact(RunRgb(dest, layers[..n]), layers[n]);
    }
  }

  lemma {:induction false} RunGrayStaysInRange(g: GrayType, dest: int, layers: seq<Layer>, lo: int, hi: int)
    requires IsGray(g, dest) && lo <= dest <= hi
    requires forall l :: l in layers ==> lo <= l.value <= hi
    ensures lo <= RunGray(g, dest, layers) <= hi
  {
    hide BlendGray;
    if layers != [] {
      var n := |layers| - 1;
      RunGrayStaysInRange(g, dest, layers[..n], lo, hi);
      BlendGrayExact(g, RunGray(g, dest, layers[..n]), layers[n]);
    }
  }

  /** Compositing does not enlarge a difference in the destination. */
  lemma CompositeContracts(x: real, y: real, l: Layer)
    ensures AbsR(Composite(x, l) - Composite(y, l)) <= AbsR(x - y)
  {
    var c := 1.0 - l.alpha as real / 255.0;
    assert 0.0 <= c <= 1.0;
    assert Composite(x, l) - Composite(y, l) == (x - y) * c;
    Contracts(x - y, c);
  }

  lemma Contracts(z: real, c: real)
    requires 0.0 <= c <= 1.0
    ensures AbsR(z * c) <= AbsR(z)
  {
    var a := AbsR(z);
    MulNonNegativeR(a, c);
    MulNonNegativeR(a, 1.0 - c);
    assert a * (1.0 - c) == a - a * c;
    assert z * c == if z < 0.0 then -(a * c) else a * c;
  }

  lemma CompositeOfInts(dest: int, l: Layer)
    ensures 255.0 * (Composite(dest as real, l) - dest as real) == Weighted(dest, l) as real
  {
    var s, d, a := l.value as real, dest as real, l.alpha as real;
    var f := a / 255.0;
    assert Composite(d, l) == s * f + d * (1.0 - f);
    assert s * f + d * (1.0 - f) - d == (s - d) * f;
    assert (s - d) * f * 255.0 == (s - d) * a;
    assert ((l.value - dest) as real) * (l.alpha as real) == ((l.value - dest) * l.alpha) as real;
  }

  /** One rgb blend is off by less than two. */
  lemma BlendRgbError(dest: byte, l: Layer)
    ensures AbsR(BlendRgb(dest, l) as real - Composite(dest as real, l)) < 2.0
  {
    CompositeOfInts(dest, l);
    BlendRgbExact(dest, l);
    WeightedRange(dest, l);
    hide BlendRgb, Composite, Weighted;
    var p, e := Weighted(dest, l), Composite(dest as real, l) - dest as real;
    if l.alpha < 255 {
      RgbErrorLinear(p, p / 256, e);
    } else {
      OpaqueIsExact(dest, l);
    }
  }

  lemma OpaqueIsExact(dest: int, l: Layer)
    requires l.alpha == 255
    ensures Composite(dest as real, l) == l.value as real
    ensures BlendRgb(if 0 <= dest < 256 then dest else 0, l) == l.value
  {
  }

  lemma RgbErrorLinear(p: int, q: int, e: real)
    requires -65025 <= p <= 65025 && q == p / 256 && 255.0 * e == p as real
    ensures -2.0 < q as real - e < 2.0
  {
    assert 256 * q <= p < 256 * q + 256;
    assert 256.0 * q as real <= p as real < 256.0 * q as real + 256.0;
  }

  /** One grayscale blend is off by less than one, unless it is saturated. */
  lemma BlendGrayError(g: GrayType, dest: int, l: Layer)
    requires IsGray(g, dest) && l.value <= g.max
    ensures AbsR(BlendGray(g, dest, l) as real - Composite(dest as real, l)) < 1.0
  {
    CompositeOfInts(dest, l);
    BlendGrayExact(g, dest, l);
    hide BlendGray, Composite, Weighted;
    var p := Weighted(dest, l);
    GrayErrorLinear(p, DivideBy255(p), Composite(dest as real, l) - dest as real);
  }

  lemma GrayErrorLinear(p: int, q: int, e: real)
    requires q == DivideBy255(p) && 255.0 * e == p as real
    ensures -1.0 < q as real - e < 1.0
  {
    assert p - 255 < 255 * q < p + 255;
    assert p as real - 255.0 < 255.0 * q as real < p as real + 255.0;
  }

  /** After k layers the rgb result differs from exact compositing by less than 2k. */
  lemma {:induction false} RunRgbError(dest: byte, layers: seq<Layer>)
    ensures var error := AbsR(RunRgb(dest, layers) as real - RunExact(dest as real, layers));
            if layers == [] then error == 0.0 else error < 2.0 * |layers| as real
  {
    hide BlendRgb, Composite;
    if layers != [] {
      var n := |layers| - 1;
      var l, exact, rgb := layers[n], RunExact(dest as real, layers[..n]), RunRgb(dest, layers[..n]);
      RunRgbError(dest, layers[..n]);
      BlendRgbError(rgb, l);
      CompositeContracts(rgb as real, exact, l);
    }
  }

  /** And the grayscale result by less than k, if the type holds all source values. */
  lemma {:induction false} RunGrayError(g: GrayType, dest: int, layers: seq<Layer>)
    requires IsGray(g, dest) && forall l :: l in layers ==> l.value <= g.max
    ensures var error := AbsR(RunGray(g, dest, layers) as real - RunExact(dest as real, layers));
            if layers == [] then error == 0.0 else error < |layers| as real
  {
    hide BlendGray, Composite;
    if layers != [] {
      var n := |layers| - 1;
      var l, exact, gray := layers[n], RunExact(dest as real, layers[..n]), RunGray(g, dest, layers[..n]);
      RunGrayError(g, dest, layers[..n]);
      BlendGrayError(g, gray, l);
      CompositeContracts(gray as real, exact, l);
    }
  }

  /**
   The rgb overload meets the documented formula exactly if and only if the pixel is opaque
   or the product (src - dest) * alpha is a multiple of 255 that is not positive.
   */
  lemma RgbMeetsFormulaIff(dest: byte, l: Layer)
    ensures BlendRgb(dest, l) as real == Composite(dest as real, l) <==>
            (l.alpha == 255 || (Weighted(dest, l) <= 0 && Weighted(dest, l) % 255 == 0))
  {
    CompositeOfInts(dest, l);
    BlendRgbExact(dest, l);
    WeightedRange(dest, l);
    hide BlendRgb, Composite, Weighted;
    var p := Weighted(dest, l);
    if l.alpha < 255 {
      RgbMeetsLinear(p, p / 256, Composite(dest as real, l) - dest as real);
    } else {
      OpaqueIsExact(dest, l);
    }
  }

  lemma RgbMeetsLinear(p: int, q: int, e: real)
    requires -65025 <= p <= 65025 && q == p / 256 && 255.0 * e == p as real
    ensures q as real == e <==> p <= 0 && p % 255 == 0
  {
    assert q as real == e <==> 255.0 * q as real == p as real;
    assert q as real == e <==> 255 * q == p;
    assert 256 * q <= p < 256 * q + 256;
  }

  /** The grayscale overload does so exactly if the product is a multiple of 255 and nothing is saturated. */
  lemma GrayMeetsFormulaIff(g: GrayType, dest: int, l: Layer)
    requires IsGray(g, dest)
    ensures BlendGray(g, dest, l) as real == Composite(dest as real, l) <==>
            Weighted(dest, l) % 255 == 0 && dest + Weighted(dest, l) / 255 <= g.max
  {
    CompositeOfInts(dest, l);
    GrayIsSaturated(g, dest, l);
    hide BlendGray, Composite, Weighted;
    var p := Weighted(dest, l);
    GrayMeetsLinear(g, p, dest, Composite(dest as real, l) - dest as real);
  }

  lemma GrayIsSaturated(g: GrayType, dest: int, l: Layer)
    requires IsGray(g, dest)
    ensures BlendGray(g, dest, l) == Saturate(g, dest + DivideBy255(Weighted(dest, l)))
    ensures dest + DivideBy255(Weighted(dest, l)) >= g.min
  {
    WeightedRange(dest, l);
    QuotientRange(l.value - dest, Weighted(dest, l));
    if l.alpha == 255 {
      DivideProduct(l.value - dest);
    }
  }

  lemma GrayMeetsLinear(g: GrayType, p: int, dest: int, e: real)
    requires IsGray(g, dest) && dest + DivideBy255(p) >= g.min && 255.0 * e == p as real
    ensures Saturate(g, dest + DivideBy255(p)) as real == dest as real + e <==> p % 255 == 0 && dest + p / 255 <= g.max
  {
    var q, r := DivideBy255(p), Saturate(g, dest + DivideBy255(p)) - dest;
    assert r as real == e <==> 255.0 * r as real == p as real;
    assert r as real == e <==> 255 * r == p;
  }

  /** The documented formula is not met exactly: white at opacity 254 over black gives 253 and 254. */
  lemma DocumentedFormulaMissed()
    ensures Composite(0.0, Layer(255, 254)) == 254.0
    ensures BlendRgb(0, Layer(255, 254)) == 253
    ensures BlendGray(GrayType(0, 255), 0, Layer(255, 254)) == 254
  {
    assert 255 * 254 == 64770;
  }

  class RgbPixel {
    var red: byte
    var green: byte
    var blue: byte

    constructor (red: byte, green: byte, blue: byte)
      ensures this.red == red && this.green == green && this.blue == blue
    {
      this.red, this.green, this.blue := red, green, blue;
    }

    /** Blends src into this pixel, channel by channel. */
    method Assign(src: RgbAlpha)
      modifies this
      ensures red == BlendRgb(old(red), Layer(src.red, src.alpha))
      ensures green == BlendRgb(old(green), Layer(src.green, src.alpha))
      ensures blue == BlendRgb(old(blue), Layer(src.blue, src.alpha))
    {
      if src.alpha == 255 {
        red := src.red;
        green := src.green;
        blue := src.blue;
      } else {
        var r, g, b := Subtract(src.red, red), Subtract(src.green, green), Subtract(src.blue, blue);
        r, g, b := r * src.alpha % 0x1_0000_0000, g * src.alpha % 0x1_0000_0000, b * src.alpha % 0x1_0000_0000;
        r, g, b := r / 256, g / 256, b / 256;
        red := (red + r % 256) % 256;
        green := (green + g % 256) % 256;
        blue := (blue + b % 256) % 256;
      }
    }
  }

  class GrayPixel {
    const kind: GrayType
    var value: int

    constructor (kind: GrayType, value: int)
      ensures this.kind == kind && this.value == value
    {
      this.kind, this.value := kind, value;
    }

    /** Blends the intensity of src into this pixel; an opaque source replaces it. */
    method Assign(src: RgbAlpha)
      requires IsGray(kind, value)
      modifies this
      ensures value == BlendGray(kind, old(value), Layer(Average(src), src.alpha))
      ensures src.alpha == 255 && kind.max >= 255 ==> IsMean(value, src)
    {
      var avg := (src.red + src.green + src.blue) / 3;
      if src.alpha == 255 {
        value := Saturate(kind, avg);
      } else {
        var temp := avg;
        temp := temp - value;
        temp := temp * src.alpha;
        temp := DivideBy255(temp);
        value := Saturate(kind, temp + value);
      }
    }
  }
}
