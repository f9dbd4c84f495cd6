/** gcode_viewer/js/dat.gui.js, `ColorMath`: the conversions between RGB and HSV, over exact reals. */
module ColorMath {

  import opened Options

  datatype Rgb = Rgb(r: real, g: real, b: real)

  /** `h` is `None` where the source yields NaN. */
  datatype Hsv = Hsv(h: Option<real>, s: real, v: real)

  // ---------------------------------------------------------------- HSV

  /** The table indexed by the sector; hues from 0 upwards wrap around. */
  function Sector(hi: nat, v: real, p: real, q: real, t: real): Rgb
    requires hi < 6
  {
    match hi
    case 0 => Rgb(v, t, p)
    case 1 => Rgb(q, v, p)
    case 2 => Rgb(p, v, t)
    case 3 => Rgb(p, q, v)
    case 4 => Rgb(t, p, v)
    case 5 => Rgb(v, p, q)
  }

  /** A value shaded by the fraction k. */
  function Shaded(v: real, s: real, k: real): real { v * (1.0 - k * s) }

  function Scaled(x: real): real { x * 255.0 }

  function HsvToRgb(h: real, s: real, v: real): Rgb
    requires h >= 0.0
  {
    var hi := (h / 60.0).Floor % 6;
    var f := h / 60.0 - (h / 60.0).Floor as real;
    var c := Sector(hi, v, Shaded(v, s, 1.0), Shaded(v, s, f), Shaded(v, s, 1.0 - f));
    Rgb(Scaled(c.r), Scaled(c.g), Scaled(c.b))
  }

  function Max(c: Rgb): real {
    var m := if c.r >= c.g then c.r else c.g;
    if m >= c.b then m else c.b
  }

  function Min(c: Rgb): real {
    var m := if c.r <= c.g then c.r else c.g;
    if m <= c.b then m else c.b
  }

  function RgbToHsv(c: Rgb): Hsv {
    var max, delta := Max(c), Max(c) - Min(c);
    if max == 0.0 then Hsv(None, 0.0, 0.0)
    else if delta == 0.0 then Hsv(None, 0.0, max / 255.0)
    else
      var x := if c.r == max then (c.g - c.b) / delta
               else if c.g == max then 2.0 + (c.b - c.r) / delta
               else 4.0 + (c.r - c.g) / delta;
      var h := if x / 6.0 < 0.0 then x / 6.0 + 1.0 else x / 6.0;
      Hsv(Some(h * 360.0), delta / max, max / 255.0)
  }

  predicate InRange(c: Rgb) { 0.0 <= c.r <= 255.0 && 0.0 <= c.g <= 255.0 && 0.0 <= c.b <= 255.0 }

  /** HSV has no room for a colour whose greatest component is 0 while another is negative. */
  predicate FitsHsv(c: Rgb) { Max(c) != 0.0 || Min(c) == 0.0 }

  function Product(a: real, b: real): real { a * b }

  lemma Quotient(a: real, d: real)
    requires d > 0.0
    ensures Product(a / d, d) == a
    ensures a >= 0.0 ==> a / d >= 0.0
    ensures a > 0.0 ==> a / d > 0.0
    ensures a < 0.0 ==> a / d < 0.0
    ensures a < d ==> a / d < 1.0
    ensures a == d ==> a / d == 1.0
    ensures a > -d ==> a / d > -1.0
    ensures a >= -d ==> a / d >= -1.0
  {
    var x := a / d;
    assert x * d == a;
    assert x >= 1.0 ==> x * d >= d;
    assert x <= -1.0 ==> x * d <= -d;
    assert x < -1.0 ==> x * d < -d;
  }

  /** With v = max/255 and s = delta/max, shading by a fraction k takes k times delta off the maximum. */
  lemma Shade(max: real, delta: real, k: real)
    requires max != 0.0
    ensures Scaled(Shaded(max / 255.0, delta / max, k)) == max - Product(k, delta)
  {
    var s := delta / max;
    assert max * s == delta;
    assert max * (k * s) == k * (max * s);
  }

  lemma SectorOfHue(h: real, n: nat, f: real)
    requires n < 6 && 0.0 <= f < 1.0 && h == 60.0 * (n as real + f)
    ensures h >= 0.0 && (h / 60.0).Floor % 6 == n && h / 60.0 - (h / 60.0).Floor as real == f
  {
    assert h / 60.0 == n as real + f;
    assert (h / 60.0).Floor == n;
  }

  lemma ScaledSector(n: nat, v: real, p: real, q: real, t: real)
    requires n < 6
    ensures var c := Sector(n, v, p, q, t);
      Rgb(Scaled(c.r), Scaled(c.g), Scaled(c.b)) == Sector(n, Scaled(v), Scaled(p), Scaled(q), Scaled(t))
  {
    hide Scaled;
  }

  lemma SectorAtHue(h: real, n: nat, f: real, v: real, s: real)
    requires n < 6 && 0.0 <= f < 1.0 && h == 60.0 * (n as real + f)
    ensures h >= 0.0
    ensures var c := Sector(n, v, Shaded(v, s, 1.0), Shaded(v, s, f), Shaded(v, s, 1.0 - f));
      HsvToRgb(h, s, v) == Rgb(Scaled(c.r), Scaled(c.g), Scaled(c.b))
  {
    hide Sector, Scaled, Shaded;
    SectorOfHue(h, n, f);
  }

  lemma Ends(max: real, delta: real)
    ensures Scaled(max / 255.0) == max && Product(1.0, delta) == delta
  {
  }

  /** A hue given as sector n and fraction f picks the sector's arrangement of the shaded values. */
  lemma AtHue(max: real, delta: real, h: real, n: nat, f: real)
    requires max != 0.0 && n < 6 && 0.0 <= f < 1.0 && h == 60.0 * (n as real + f)
    ensures h >= 0.0
    ensures HsvToRgb(h, delta / max, max / 255.0)
         == Sector(n, max, max - delta, max - Product(f, delta), max - Product(1.0 - f, delta))
  {
    hide HsvToRgb, Sector, Product, Shaded, Scaled;
    var v, s := max / 255.0, delta / max;
    SectorAtHue(h, n, f, v, s);
    ScaledSector(n, v, Shaded(v, s, 1.0), Shaded(v, s, f), Shaded(v, s, 1.0 - f));
    Shade(max, delta, 1.0);
    Shade(max, delta, f);
    Shade(max, delta, 1.0 - f);
    Ends(max, delta);
  }

  /** Without saturation the hue does not matter. */
  lemma GreyAtAnyHue(h: real, v: real)
    requires h >= 0.0
    ensures HsvToRgb(h, 0.0, v) == Rgb(v * 255.0, v * 255.0, v * 255.0)
  {
  }

  /** The sector and fraction of the hue of a colour that is not grey. */
  function Fraction(c: Rgb): (r: (nat, real))
    requires Max(c) > Min(c)
    ensures r.0 < 6 && 0.0 <= r.1 < 1.0
  {
    var delta := Max(c) - Min(c);
    Fractions(c);
    if c.r == Max(c) then
      if c.g - c.b == delta then (1, 0.0)
      else if c.g >= c.b then (0, (c.g - c.b) / delta)
      else (5, 1.0 + (c.g - c.b) / delta)
    else if c.g == Max(c) then
      if c.b - c.r == delta then (3, 0.0)
      else if c.b >= c.r then (2, (c.b - c.r) / delta)
      else (1, 1.0 + (c.b - c.r) / delta)
    else if c.r >= c.g then (4, (c.r - c.g) / delta)
    else (3, 1.0 + (c.r - c.g) / delta)
  }

  lemma Fractions(c: Rgb)
    requires Max(c) > Min(c)
    ensures var delta := Max(c) - Min(c);
      && (c.r == Max(c) && c.g - c.b != delta ==> -1.0 <= (c.g - c.b) / delta < 1.0)
      && (c.r == Max(c) && c.g - c.b == delta ==> (c.g - c.b) / delta == 1.0)
      && (c.r == Max(c) && c.g >= c.b ==> (c.g - c.b) / delta >= 0.0)
      && (c.r == Max(c) && c.g < c.b ==> (c.g - c.b) / delta < 0.0)
      && (c.r < Max(c) == c.g && c.b - c.r != delta ==> -1.0 <= (c.b - c.r) / delta < 1.0)
      && (c.r < Max(c) == c.g && c.b - c.r == delta ==> (c.b - c.r) / delta == 1.0)
      && (c.r < Max(c) == c.g && c.b >= c.r ==> (c.b - c.r) / delta >= 0.0)
      && (c.r < Max(c) == c.g && c.b < c.r ==> -1.0 <= (c.b - c.r) / delta < 0.0)
      && (c.r < Max(c) && c.g < Max(c) ==> -1.0 < (c.r - c.g) / delta < 1.0)
      && (c.r < Max(c) && c.g < Max(c) && c.r >= c.g ==> (c.r - c.g) / delta >= 0.0)
      && (c.r < Max(c) && c.g < Max(c) && c.r < c.g ==> (c.r - c.g) / delta < 0.0)
  {
    var delta := Max(c) - Min(c);
    Quotient(c.g - c.b, delta);
    Quotient(c.b - c.r, delta);
    Quotient(c.r - c.g, delta);
  }

  lemma HueIsFraction(c: Rgb)
    requires Max(c) > Min(c) && Max(c) != 0.0
    ensures var z, (n, f) := RgbToHsv(c), Fraction(c);
      z.h.Some? && z.h.value == 60.0 * (n as real + f)
  {
    Fractions(c);
  }

  /**
   Converting to HSV and back is the identity exactly when the colour fits, as all in range do, ties between maxima and
   components beyond 255 included. Greys and black have no hue of their own; any hue retained from before does.
   */
  lemma RgbHsvRgb(c: Rgb, retained: real)
    requires retained >= 0.0
    ensures var z := RgbToHsv(c);
      var h := if z.h.Some? then z.h.value else retained;
      h >= 0.0 && (HsvToRgb(h, z.s, z.v) == c <==> FitsHsv(c))
    ensures InRange(c) ==> FitsHsv(c)
  {
    var z := RgbToHsv(c);
    if Max(c) == Min(c) || Max(c) == 0.0 {
      GreyAtAnyHue(retained, z.v);
    } else {
      HueIsFraction(c);
      var (n, f) := Fraction(c);
      var max, delta := Max(c), Max(c) - Min(c);
      AtHue(max, delta, z.h.value, n, f);
      Quotient(c.g - c.b, delta);
      Quotient(c.b - c.r, delta);
      Quotient(c.r - c.g, delta);
      SectorIsColor(c, n, f);
    }
  }

  lemma SectorIsColor(c: Rgb, n: nat, f: real)
    requires Max(c) > Min(c) && (n, f) == Fraction(c)
    ensures var max, delta := Max(c), Max(c) - Min(c);
      Sector(n, max, max - delta, max - Product(f, delta), max - Product(1.0 - f, delta)) == c
  {
    var delta := Max(c) - Min(c);
    Quotient(c.g - c.b, delta);
    Quotient(c.b - c.r, delta);
    Quotient(c.r - c.g, delta);
    Complement(f, delta);
    Complement((c.g - c.b) / delta, delta);
    Complement((c.b - c.r) / delta, delta);
    Complement((c.r - c.g) / delta, delta);
  }

  lemma Complement(f: real, d: real)
    ensures Product(1.0 - f, d) == d - Product(f, d) && Product(1.0 + f, d) == d + Product(f, d)
    ensures Product(0.0, d) == 0.0 && Product(1.0, d) == d
  {
  }

  lemma Divides(a: real, f: real, d: real)
    requires d > 0.0 && a == Product(f, d)
    ensures a / d == f
  {
    assert (a / d) * d == f * d;
  }

  /** The arrangement of sector n and fraction f has that hue again, whichever maximum it ties. */
  lemma SectorHue(max: real, delta: real, n: nat, f: real)
    requires max > 0.0 && 0.0 < delta <= max && n < 6 && 0.0 <= f < 1.0
    ensures var c := Sector(n, max, max - delta, max - Product(f, delta), max - Product(1.0 - f, delta));
      Max(c) == max && Min(c) == max - delta && RgbToHsv(c).h == Some(60.0 * (n as real + f))
  {
    Complement(f, delta);
    Bounded(f, delta);
    Complement(1.0 - f, delta);
    Divides(Product(f, delta), f, delta);
    Divides(-Product(1.0 - f, delta), f - 1.0, delta);
    Divides(delta, 1.0, delta);
    Divides(0.0, 0.0, delta);
  }

  lemma Bounded(f: real, d: real)
    requires 0.0 <= f < 1.0 && d > 0.0
    ensures 0.0 <= Product(f, d) < d && (f > 0.0 ==> Product(f, d) > 0.0)
    ensures -Product(1.0 - f, d) == Product(f - 1.0, d)
  {
  }

  /** The other way round: every hue below 360 with some saturation and value survives. */
  lemma HsvRgbHsv(h: real, s: real, v: real)
    requires 0.0 <= h < 360.0 && 0.0 < s <= 1.0 && v > 0.0
    ensures RgbToHsv(HsvToRgb(h, s, v)) == Hsv(Some(h), s, v)
  {
    var n, f := (h / 60.0).Floor, h / 60.0 - (h / 60.0).Floor as real;
    var max := v * 255.0;
    var delta := Product(s, max);
    Divides(delta, s, max);
    ScaledBy(s, max);
    assert max / 255.0 == v;
    AtHue(max, delta, h, n, f);
    SectorHue(max, delta, n, f);
  }

  /** Where the hues are: red at 0 degrees, and from there yellow, green, cyan, blue and magenta every 60. */
  lemma HuesOfTheCircle(x: real)
    requires x > 0.0
    ensures RgbToHsv(Rgb(x, 0.0, 0.0)) == Hsv(Some(0.0), 1.0, x / 255.0)
    ensures RgbToHsv(Rgb(x, x, 0.0)) == Hsv(Some(60.0), 1.0, x / 255.0)
    ensures RgbToHsv(Rgb(0.0, x, 0.0)) == Hsv(Some(120.0), 1.0, x / 255.0)
    ensures RgbToHsv(Rgb(0.0, x, x)) == Hsv(Some(180.0), 1.0, x / 255.0)
    ensures RgbToHsv(Rgb(0.0, 0.0, x)) == Hsv(Some(240.0), 1.0, x / 255.0)
    ensures RgbToHsv(Rgb(x, 0.0, x)) == Hsv(Some(300.0), 1.0, x / 255.0)
    ensures RgbToHsv(Rgb(x, x, x)) == Hsv(None, 0.0, x / 255.0)
  {
    Divides(x, 1.0, x);
    Divides(-x, -1.0, x);
    Divides(0.0, 0.0, x);
    assert (0.0 - x) / x == -1.0 && (x - 0.0) / x == 1.0 && (0.0 - 0.0) / x == 0.0 && (x - x) / x == 0.0;
  }

  lemma ScaledBy(s: real, max: real)
    requires 0.0 < s <= 1.0 && max > 0.0
    ensures 0.0 < Product(s, max) <= max
  {
  }
}
