/**
 Conversion between RGB and HSL colours (RGB2HSL, HSL2RGB) over the real numbers.
 */
module ColourSpaces {

  datatype Colour = Colour(r: real, g: real, b: real)

  /** Hue in degrees, saturation and lightness between 0 and 1. */
  datatype Hsl = Hsl(h: real, s: real, l: real)

  function Min(x: real, y: real): real {
    if x < y then x else y
  }

  function Max(x: real, y: real): real {
    if x < y then y else x
  }

  predicate InUnit(c: Colour) {
    0.0 <= c.r <= 1.0 && 0.0 <= c.g <= 1.0 && 0.0 <= c.b <= 1.0
  }

  function Top(c: Colour): real {
    Max(c.r, Max(c.g, c.b))
  }

  function Bottom(c: Colour): real {
    Min(c.r, Min(c.g, c.b))
  }

  function Saturation(delta: real, l: real): real {
    if 0.0 < l < 1.0 then delta / (if l < 0.5 then 2.0 * l else 2.0 - 2.0 * l) else 0.0
  }

  /** The hue in sextants; the three contributions are added up. */
  function Sextant(c: Colour): real {
    var top, delta := Top(c), Top(c) - Bottom(c);
    if delta > 0.0 then
      (if top == c.r && top != c.g then (c.g - c.b) / delta else 0.0)
      + (if top == c.g && top != c.b then 2.0 + (c.b - c.r) / delta else 0.0)
      + (if top == c.b && top != c.r then 4.0 + (c.r - c.g) / delta else 0.0)
    else 0.0
  }

  function RGB2HSL(c: Colour): Hsl {
    var l := (Bottom(c) + Top(c)) / 2.0;
    Hsl(60.0 * Sextant(c), Saturation(Top(c) - Bottom(c), l), l)
  }

  /** The fully saturated colour of a hue. */
  function Saturated(h: real): Colour {
    var sat :=
      if h < 120.0 then Colour((120.0 - h) / 60.0, h / 60.0, 0.0)
      else if h < 240.0 then Colour(0.0, (240.0 - h) / 60.0, (h - 120.0) / 60.0)
      else Colour((h - 240.0) / 60.0, 0.0, (360.0 - h) / 60.0);
    Colour(Min(sat.r, 1.0), Min(sat.g, 1.0), Min(sat.b, 1.0))
  }

  /** One channel of the result. */
  function Channel(s: real, l: real, sat: real): real {
    var tmp := 2.0 * s * sat + (1.0 - s);
    if l < 0.5 then l * tmp else (1.0 - l) * tmp + 2.0 * l - 1.0
  }

  function HSL2RGB(c: Hsl): Colour {
    var sat := Saturated(c.h);
    Colour(Channel(c.s, c.l, sat.r), Channel(c.s, c.l, sat.g), Channel(c.s, c.l, sat.b))
  }

  /** A channel is min + delta * sat: saturation 0 gives the smallest channel, 1 the largest. */
  lemma ChannelValue(bottom: real, top: real, sat: real)
    requires 0.0 <= bottom <= top <= 1.0
    ensures var l := (bottom + top) / 2.0;
            Channel(Saturation(top - bottom, l), l, sat) == bottom + (top - bottom) * sat
  {
    var l, delta := (bottom + top) / 2.0, top - bottom;
    var s := Saturation(delta, l);
    if 0.0 < l < 1.0 {
      var m := if l < 0.5 then 2.0 * l else 2.0 - 2.0 * l;
      assert m * s == delta;
      var p := if l < 0.5 then l else 1.0 - l;
      assert p * (2.0 * s * sat + (1.0 - s)) == (m * s) * sat + p - (m * s) / 2.0 by {
        Expand(p, s, sat, m);
      }
    } else {
      assert delta == 0.0;
    }
  }

  lemma Expand(p: real, s: real, sat: real, m: real)
    requires m == 2.0 * p
    ensures p * (2.0 * s * sat + (1.0 - s)) == (m * s) * sat + p - (m * s) / 2.0
  {
    assert p * (2.0 * s * sat) == (2.0 * p * s) * sat;
  }

  /** The channel x lies sat times the distance between smallest and largest channel above the smallest. */
  ghost predicate Height(bottom: real, top: real, sat: real, x: real) {
    (top - bottom) * sat == x - bottom
  }

  ghost predicate Heights(c: Colour, sat: Colour) {
    && Height(Bottom(c), Top(c), sat.r, c.r)
    && Height(Bottom(c), Top(c), sat.g, c.g)
    && Height(Bottom(c), Top(c), sat.b, c.b)
  }

  lemma ChannelBack(bottom: real, top: real, sat: real, x: real)
    requires 0.0 <= bottom <= top <= 1.0
    requires Height(bottom, top, sat, x)
    ensures var l := (bottom + top) / 2.0; Channel(Saturation(top - bottom, l), l, sat) == x
  {
    ChannelValue(bottom, top, sat);
  }

  lemma BackFromHeights(c: Colour, h: real)
    requires InUnit(c) && Heights(c, Saturated(h))
    ensures HSL2RGB(RGB2HSL(c).(h := h)) == c
  {
    var sat := Saturated(h);
    assert 0.0 <= Bottom(c) <= Top(c) <= 1.0;
    hide Channel, Saturation, Saturated, Top, Bottom, Sextant, Height;
    ChannelBack(Bottom(c), Top(c), sat.r, c.r);
    ChannelBack(Bottom(c), Top(c), sat.g, c.g);
    ChannelBack(Bottom(c), Top(c), sat.b, c.b);
  }

  lemma SignOfProduct(x: real, d: real)
    requires d > 0.0
    ensures x * d >= 0.0 <==> x >= 0.0
    ensures x * d == 0.0 <==> x == 0.0
  {
  }

  /** A quotient of two channel differences. */
  lemma Quotient(a: real, delta: real) returns (q: real)
    requires delta > 0.0
    ensures q == a / delta && q * delta == a
    ensures a >= 0.0 <==> q >= 0.0
    ensures -delta <= a <==> -1.0 <= q
    ensures a <= delta <==> q <= 1.0
    ensures a == delta <==> q == 1.0
    ensures a == 0.0 <==> q == 0.0
  {
    q := a / delta;
    SignOfProduct(q, delta);
    SignOfProduct(q + 1.0, delta);
    SignOfProduct(1.0 - q, delta);
    assert (q + 1.0) * delta == a + delta;
    assert (1.0 - q) * delta == delta - a;
  }

  /** The hue is negative exactly for colours between magenta and red. */
  predicate RedBelowMagenta(c: Colour) {
    c.r >= c.b > c.g
  }

  lemma HueRange(c: Colour)
    ensures -60.0 <= RGB2HSL(c).h < 300.0
    ensures RGB2HSL(c).h < 0.0 <==> RedBelowMagenta(c)
  {
    var delta := Top(c) - Bottom(c);
    if delta > 0.0 {
      var q1 := Quotient(c.g - c.b, delta);
      var q2 := Quotient(c.b - c.r, delta);
      var q3 := Quotient(c.r - c.g, delta);
    }
  }

  lemma HeightsOfHue(c: Colour)
    requires !RedBelowMagenta(c)
    ensures Heights(c, Saturated(RGB2HSL(c).h))
  {
    hide Sextant, Saturation, Height;
    if Top(c) == Bottom(c) {
      HeightsGrey(c);
    } else if Top(c) == c.r && c.r != c.g {
      HeightsRed(c);
    } else if Top(c) == c.g && c.g != c.b {
      HeightsGreen(c);
    } else {
      HeightsBlue(c);
    }
  }

  lemma HeightsGrey(c: Colour)
    requires Top(c) == Bottom(c)
    ensures Heights(c, Saturated(RGB2HSL(c).h))
  {
  }

  lemma HeightsRed(c: Colour)
    requires Top(c) == c.r && c.r != c.g && !RedBelowMagenta(c)
    ensures Heights(c, Saturated(RGB2HSL(c).h))
  {
    var q := Quotient(c.g - c.b, c.r - c.b);
  }

  lemma HeightsBlue(c: Colour)
    requires Top(c) == c.b && c.b != c.r
    ensures Heights(c, Saturated(RGB2HSL(c).h))
  {
    var q := Quotient(c.r - c.g, c.b - Bottom(c));
  }

  lemma HeightsGreen(c: Colour)
    requires Top(c) == c.g && c.g != c.b && Top(c) != Bottom(c)
    ensures Heights(c, Saturated(RGB2HSL(c).h))
  {
    var q := Quotient(c.b - c.r, c.g - Bottom(c));
  }

  /** The hue of the remaining colours works once it has been brought into [0, 360). */
  lemma HeightsOfNegativeHue(c: Colour)
    requires RedBelowMagenta(c)
    ensures Heights(c, Saturated(RGB2HSL(c).h + 360.0))
  {
    var q := Quotient(c.g - c.b, c.r - c.g);
  }

  /** With a negative hue the green channel comes out below the smallest one. */
  lemma NegativeHueFails(c: Colour)
    requires InUnit(c) && RedBelowMagenta(c)
    ensures HSL2RGB(RGB2HSL(c)).g < c.g
  {
    HueRange(c);
    var h := RGB2HSL(c).h;
    var sat := Saturated(h);
    assert sat.g == h / 60.0 < 0.0;
    ChannelValue(Bottom(c), Top(c), sat.g);
    var delta := Top(c) - Bottom(c);
    assert delta * sat.g < 0.0;
  }

  /**
   Converting to HSL and back restores a colour if and only if it is not one of those
   between magenta and red, whose hue comes out negative; for these it does after adding 360.
   */
  lemma RoundTripIff(c: Colour)
    requires InUnit(c)
    ensures HSL2RGB(RGB2HSL(c)) == c <==> !RedBelowMagenta(c)
    ensures RGB2HSL(c).h < 0.0 <==> RedBelowMagenta(c)
    ensures RedBelowMagenta(c) ==> HSL2RGB(RGB2HSL(c).(h := RGB2HSL(c).h + 360.0)) == c
  {
    HueRange(c);
    hide RGB2HSL, HSL2RGB, Heights;
    if RedBelowMagenta(c) {
      NegativeHueFails(c);
      HeightsOfNegativeHue(c);
      BackFromHeights(c, RGB2HSL(c).h + 360.0);
    } else {
      HeightsOfHue(c);
      BackFromHeights(c, RGB2HSL(c).h);
    }
  }

  /** Magenta itself is one of the colours that do not survive. */
  lemma MagentaFails()
    ensures RGB2HSL(Colour(1.0, 0.0, 1.0)).h == -60.0
    ensures HSL2RGB(RGB2HSL(Colour(1.0, 0.0, 1.0))) == Colour(1.0, -1.0, 0.0)
  {
  }

  lemma ChannelInUnit(s: real, l: real, sat: real)
    requires 0.0 <= s <= 1.0 && 0.0 <= l <= 1.0 && 0.0 <= sat <= 1.0
    ensures 0.0 <= Channel(s, l, sat) <= 1.0
  {
    TmpBounds(s, sat);
    LightnessBounds(l, 2.0 * s * sat + (1.0 - s));
  }

  lemma TmpBounds(s: real, sat: real)
    requires 0.0 <= s <= 1.0 && 0.0 <= sat <= 1.0
    ensures 0.0 <= 2.0 * s * sat + (1.0 - s) <= 2.0
  {
    ProductBounds(s, sat, 1.0, 1.0 * s);
    TmpLinear(s, s * sat, 2.0 * s * sat);
  }

  lemma TmpLinear(s: real, u: real, x: real)
    requires 0.0 <= u <= s <= 1.0 && x == 2.0 * u
    ensures 0.0 <= x + (1.0 - s) <= 2.0
  {
  }

  lemma LightnessBounds(l: real, tmp: real)
    requires 0.0 <= l <= 1.0 && 0.0 <= tmp <= 2.0
    ensures 0.0 <= (if l < 0.5 then l * tmp else (1.0 - l) * tmp + 2.0 * l - 1.0) <= 1.0
  {
    if l < 0.5 {
      ProductBounds(l, tmp, 2.0, 2.0 * l);
    } else {
      ProductBounds(1.0 - l, tmp, 2.0, 2.0 * (1.0 - l));
      LightnessLinear(l, (1.0 - l) * tmp);
    }
  }

  lemma LightnessLinear(l: real, x: real)
    requires 0.5 <= l <= 1.0 && 0.0 <= x <= 2.0 * (1.0 - l)
    ensures 0.0 <= x + 2.0 * l - 1.0 <= 1.0
  {
  }

  lemma ProductBounds(p: real, t: real, m: real, mp: real)
    requires 0.0 <= p && 0.0 <= t <= m && mp == m * p
    ensures 0.0 <= p * t <= mp
  {
    assert p * (m - t) >= 0.0;
  }

  /** Every HSL colour in range is an RGB colour in range. */
  lemma HSL2RGBInUnit(c: Hsl)
    requires 0.0 <= c.h <= 360.0 && 0.0 <= c.s <= 1.0 && 0.0 <= c.l <= 1.0
    ensures InUnit(HSL2RGB(c))
  {
    var sat := Saturated(c.h);
    assert InUnit(sat);
    hide Channel, Saturated;
    ChannelInUnit(c.s, c.l, sat.r);
    ChannelInUnit(c.s, c.l, sat.g);
    ChannelInUnit(c.s, c.l, sat.b);
  }

  /** Saturation and lightness of a colour in range are in range. */
  lemma RGB2HSLInRange(c: Colour)
    requires InUnit(c)
    ensures var q := RGB2HSL(c); 0.0 <= q.s <= 1.0 && 0.0 <= q.l <= 1.0 && -60.0 <= q.h < 300.0
  {
    HueRange(c);
    var l, delta := RGB2HSL(c).l, Top(c) - Bottom(c);
    if 0.0 < l < 1.0 {
      var s := Quotient(delta, if l < 0.5 then 2.0 * l else 2.0 - 2.0 * l);
    }
  }

  // ---------- which hue belongs to which colour ----------

  /** Greys have no hue and no saturation. */
  lemma GreyHasNoHue(c: Colour)
    requires c.r == c.g == c.b
    ensures RGB2HSL(c) == Hsl(0.0, 0.0, c.r)
  {
    var l := c.r;
    if 0.0 < l < 1.0 {
      assert 0.0 / (if l < 0.5 then 2.0 * l else 2.0 - 2.0 * l) == 0.0;
    }
  }

  /** A colour whose channels are 0 and 1, both present, has this hue if its sextant is k. */
  lemma PureHue(c: Colour, k: real)
    requires Top(c) == 1.0 && Bottom(c) == 0.0 && Sextant(c) == k
    ensures RGB2HSL(c) == Hsl(60.0 * k, 1.0, 0.5)
  {
    hide Top, Bottom, Sextant;
  }

  /** Red, green and blue are at 0, 120 and 240 degrees; yellow and cyan half way between them. */
  lemma KnownHues()
    ensures RGB2HSL(Colour(1.0, 0.0, 0.0)) == Hsl(0.0, 1.0, 0.5)
    ensures RGB2HSL(Colour(1.0, 1.0, 0.0)) == Hsl(60.0, 1.0, 0.5)
    ensures RGB2HSL(Colour(0.0, 1.0, 0.0)) == Hsl(120.0, 1.0, 0.5)
    ensures RGB2HSL(Colour(0.0, 1.0, 1.0)) == Hsl(180.0, 1.0, 0.5)
    ensures RGB2HSL(Colour(0.0, 0.0, 1.0)) == Hsl(240.0, 1.0, 0.5)
  {
    hide RGB2HSL;
    PureHue(Colour(1.0, 0.0, 0.0), 0.0);
    PureHue(Colour(1.0, 1.0, 0.0), 1.0);
    PureHue(Colour(0.0, 1.0, 0.0), 2.0);
    PureHue(Colour(0.0, 1.0, 1.0), 3.0);
    PureHue(Colour(0.0, 0.0, 1.0), 4.0);
  }

  // ---------- from HSL to RGB and back ----------

  /** The distance between the smallest and the largest channel of a colour. */
  function Chroma(s: real, l: real): real {
    (if l < 0.5 then 2.0 * l else 2.0 - 2.0 * l) * s
  }

  lemma ChannelAsHeight(s: real, l: real, sat: real)
    ensures Channel(s, l, sat) == l - Chroma(s, l) / 2.0 + Chroma(s, l) * sat
  {
    var p := if l < 0.5 then l else 1.0 - l;
    Expand(p, s, sat, 2.0 * p);
  }

  function Lift(bottom: real, delta: real, x: real): real {
    bottom + delta * x
  }

  /** Moving and stretching all channels alike. */
  function Stretched(c: Colour, bottom: real, delta: real): Colour {
    Colour(Lift(bottom, delta, c.r), Lift(bottom, delta, c.g), Lift(bottom, delta, c.b))
  }

  lemma LiftOrder(bottom: real, delta: real, x: real, y: real)
    requires delta > 0.0
    ensures Lift(bottom, delta, x) < Lift(bottom, delta, y) <==> x < y
    ensures Lift(bottom, delta, x) == Lift(bottom, delta, y) <==> x == y
    ensures (Lift(bottom, delta, x) - Lift(bottom, delta, y)) / delta == x - y
  {
    LiftDifference(bottom, delta, x, y);
    SignOfProduct(x - y, delta);
    SignOfProduct(y - x, delta);
    assert delta * (x - y) / delta == x - y;
  }

  lemma LiftDifference(bottom: real, delta: real, x: real, y: real)
    ensures Lift(bottom, delta, x) - Lift(bottom, delta, y) == delta * (x - y)
    ensures Lift(bottom, delta, y) - Lift(bottom, delta, x) == delta * (y - x)
  {
  }

  lemma StretchedRange(c: Colour, bottom: real, delta: real)
    requires delta > 0.0
    ensures Top(Stretched(c, bottom, delta)) == Lift(bottom, delta, Top(c))
    ensures Bottom(Stretched(c, bottom, delta)) == Lift(bottom, delta, Bottom(c))
  {
    hide Lift;
    LiftOrder(bottom, delta, c.r, c.g);
    LiftOrder(bottom, delta, c.g, c.b);
    LiftOrder(bottom, delta, c.r, c.b);
  }

  /** The order of the channels and their differences relative to delta make the hue. */
  lemma SameSextant(c: Colour, d: Colour)
    requires Top(c) - Bottom(c) == 1.0 && Top(d) - Bottom(d) > 0.0
    requires (c.r < c.g <==> d.r < d.g) && (c.g < c.b <==> d.g < d.b) && (c.b < c.r <==> d.b < d.r)
    requires (c.r == c.g <==> d.r == d.g) && (c.g == c.b <==> d.g == d.b) && (c.b == c.r <==> d.b == d.r)
    requires (d.g - d.b) / (Top(d) - Bottom(d)) == c.g - c.b
    requires (d.b - d.r) / (Top(d) - Bottom(d)) == c.b - c.r
    requires (d.r - d.g) / (Top(d) - Bottom(d)) == c.r - c.g
    ensures Sextant(c) == Sextant(d)
  {
  }

  lemma LiftEnds(bottom: real, delta: real)
    ensures Lift(bottom, delta, 0.0) == bottom && Lift(bottom, delta, 1.0) == bottom + delta
  {
  }

  lemma StretchedSextant(c: Colour, bottom: real, delta: real)
    requires delta > 0.0 && Top(c) == 1.0 && Bottom(c) == 0.0
    ensures Sextant(Stretched(c, bottom, delta)) == Sextant(c)
  {
    hide Top, Bottom, Sextant, Lift;
    StretchedRange(c, bottom, delta);
    LiftEnds(bottom, delta);
    LiftOrder(bottom, delta, c.r, c.g);
    LiftOrder(bottom, delta, c.g, c.b);
    LiftOrder(bottom, delta, c.b, c.r);
    SameSextant(c, Stretched(c, bottom, delta));
  }

  lemma SaturatedHue(h: real)
    requires 0.0 <= h <= 360.0
    ensures Top(Saturated(h)) == 1.0 && Bottom(Saturated(h)) == 0.0
    ensures 60.0 * Sextant(Saturated(h)) == if h < 300.0 then h else h - 360.0
  {
  }

  lemma SaturationOfChroma(s: real, l: real)
    requires 0.0 < l < 1.0 && s > 0.0
    ensures Saturation(Chroma(s, l), l) == s && Chroma(s, l) > 0.0
  {
    var m := if l < 0.5 then 2.0 * l else 2.0 - 2.0 * l;
    SignOfProduct(s, m);
    assert m * s / m == s;
  }

  lemma HslOfStretched(sat: Colour, bottom: real, delta: real)
    requires delta > 0.0 && Top(sat) == 1.0 && Bottom(sat) == 0.0
    ensures var l := bottom + delta / 2.0;
            RGB2HSL(Stretched(sat, bottom, delta)) == Hsl(60.0 * Sextant(sat), Saturation(delta, l), l)
  {
    hide Top, Bottom, Sextant, Saturation, Stretched, Lift;
    StretchedRange(sat, bottom, delta);
    LiftEnds(bottom, delta);
    StretchedSextant(sat, bottom, delta);
  }

  lemma RgbIsStretched(c: Hsl)
    ensures HSL2RGB(c) == Stretched(Saturated(c.h), c.l - Chroma(c.s, c.l) / 2.0, Chroma(c.s, c.l))
  {
    hide Saturated, Channel, Chroma;
    var sat := Saturated(c.h);
    ChannelAsHeight(c.s, c.l, sat.r);
    ChannelAsHeight(c.s, c.l, sat.g);
    ChannelAsHeight(c.s, c.l, sat.b);
  }

  /**
   Converting to RGB and back restores saturation and lightness of every colour that has a
   hue, and the hue up to a full turn: from 300 degrees on it comes out negative.
   */
  lemma BackToHsl(c: Hsl)
    requires 0.0 <= c.h <= 360.0 && 0.0 < c.s <= 1.0 && 0.0 < c.l < 1.0
    ensures RGB2HSL(HSL2RGB(c)) == c.(h := if c.h < 300.0 then c.h else c.h - 360.0)
  {
    hide RGB2HSL, HSL2RGB, Saturated, Sextant, Top, Bottom, Stretched, Chroma, Saturation;
    RgbIsStretched(c);
    SaturatedHue(c.h);
    SaturationOfChroma(c.s, c.l);
    HslOfStretched(Saturated(c.h), c.l - Chroma(c.s, c.l) / 2.0, Chroma(c.s, c.l));
  }

  /** Without saturation, or at lightness 0 or 1, the hue is lost. */
  lemma BackToGrey(c: Hsl)
    requires 0.0 <= c.h <= 360.0 && 0.0 <= c.s <= 1.0 && 0.0 <= c.l <= 1.0
    requires c.s == 0.0 || c.l == 0.0 || c.l == 1.0
    ensures RGB2HSL(HSL2RGB(c)) == Hsl(0.0, 0.0, c.l)
  {
    var sat := Saturated(c.h);
    ChannelAsHeight(c.s, c.l, sat.r);
    ChannelAsHeight(c.s, c.l, sat.g);
    ChannelAsHeight(c.s, c.l, sat.b);
    assert Chroma(c.s, c.l) == 0.0;
    hide Saturated, Channel;
    GreyHasNoHue(HSL2RGB(c));
  }
}
