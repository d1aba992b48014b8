/**
 * The colour rules of the orbital viewer: the probability density of a
 * point, the intensity derived from it, the RGBA channels each colour
 * scheme writes for a point, and the red/blue heat-map colour of a value.
 */
module ColorMapper {

  /**
   * The colorSet property: absent (null or undefined) or a scheme name.
   * The viewer knows "redBlue" and "greenTransparency"; any other name,
   * such as "blackOrange", is accepted and selects no colour rule.
   */
  datatype ColorSet = Unset | Named(name: string)

  datatype Option<T> = None | Some(value: T)

  /** One point's colour channels, each nominally in [0, 1]. */
  datatype Rgba = Rgba(r: real, g: real, b: real, a: real)

  /** A heat-map colour, each channel nominally in [0, 255]. */
  datatype Rgb = Rgb(r: real, g: real, b: real)

  /** The colour rule a colorSet value selects. */
  datatype Scheme = RedBlue | GreenTransparency | NoColor

  /**
   * The red/blue rule applies to "redBlue" and to an absent colorSet, the
   * green rule to "greenTransparency"; every other name selects no rule.
   */
  function SchemeOf(c: ColorSet): (k: Scheme)
    ensures k == RedBlue <==> c == Unset || c == Named("redBlue")
    ensures k == GreenTransparency <==> c == Named("greenTransparency")
  {
    if c == Unset || c == Named("redBlue") then RedBlue
    else if c == Named("greenTransparency") then GreenTransparency
    else NoColor
  }

  /** The scheme names the settings panel offers, and the absent value. */
  lemma SchemeOfOffered()
    ensures SchemeOf(Unset) == RedBlue
    ensures SchemeOf(Named("redBlue")) == RedBlue
    ensures SchemeOf(Named("greenTransparency")) == GreenTransparency
    ensures SchemeOf(Named("blackOrange")) == NoColor
  {
    assert Named("blackOrange") != Named("redBlue");
    assert Named("blackOrange") != Named("greenTransparency");
  }

  /** Math.min on two reals. */
  function Min(a: real, b: real): (r: real)
    ensures r <= a && r <= b
    ensures r == a || r == b
  {
    if a <= b then a else b
  }

  /** The probability density |R * Y| of a point from its radial and angular factors. */
  function Density(radial: real, angular: real): real
  {
    var p := radial * angular;
    if p < 0.0 then -p else p
  }

  /** The density is the magnitude of the product: non-negative and equal to it up to sign. */
  lemma DensityIsMagnitude(radial: real, angular: real)
    ensures Density(radial, angular) >= 0.0
    ensures Density(radial, angular) == radial * angular || Density(radial, angular) == -(radial * angular)
  {
  }

  /** The intensity min(1, 100 * density) of a point. */
  function Intensity(density: real): real
  {
    Min(1.0, density * 100.0)
  }

  /** The intensity is capped at 1, saturates exactly from density 0.01 on, and is non-negative for a density. */
  lemma IntensityBounds(density: real)
    ensures Intensity(density) <= 1.0 && Intensity(density) <= density * 100.0
    ensures Intensity(density) == 1.0 || Intensity(density) == density * 100.0
    ensures Intensity(density) == 1.0 <==> density * 100.0 >= 1.0
    ensures density >= 0.0 ==> 0.0 <= Intensity(density)
  {
  }

  /** A larger density never gives a smaller intensity. */
  lemma IntensityMonotone(d1: real, d2: real)
    requires d1 <= d2
    ensures Intensity(d1) <= Intensity(d2)
  {
  }

  /**
   * The channels one point receives for intensity t: (1 - t, 0, t, 1) under
   * the red/blue rule, (0, t, 0, t) under the green rule, and nothing (None)
   * when no rule applies, so that the point keeps the buffer's previous values.
   */
  function PointColor(k: Scheme, t: real): Option<Rgba>
  {
    match k
    case RedBlue => Some(Rgba(1.0 - t, 0.0, t, 1.0))
    case GreenTransparency => Some(Rgba(0.0, t, 0.0, t))
    case NoColor => None
  }

  /**
   * A scheme writes a colour exactly when it has a rule; under the red/blue
   * rule the point is opaque with no green and red + blue = 1, blue being the
   * intensity; under the green rule red and blue are 0 and green and alpha
   * are both the intensity.
   */
  lemma PointColorRules(k: Scheme, t: real)
    ensures PointColor(k, t).Some? <==> k != NoColor
    ensures k == RedBlue ==>
              var o := PointColor(k, t).value; o.r + o.b == 1.0 && o.b == t && o.g == 0.0 && o.a == 1.0
    ensures k == GreenTransparency ==>
              var o := PointColor(k, t).value; o.r == 0.0 && o.b == 0.0 && o.g == t && o.a == t
  {
  }

  /** For a non-negative density every channel written lies in [0, 1]. */
  lemma PointColorInUnitRange(k: Scheme, density: real)
    requires density >= 0.0
    ensures PointColor(k, Intensity(density)).Some? ==>
              var col := PointColor(k, Intensity(density)).value;
              0.0 <= col.r <= 1.0 && 0.0 <= col.g <= 1.0 && 0.0 <= col.b <= 1.0 && 0.0 <= col.a <= 1.0
  {
    IntensityBounds(density);
  }

  /** The red/blue rule on the two extreme intensities: pure red at 0, pure blue at 1. */
  lemma RedBlueExtremes()
    ensures PointColor(RedBlue, Intensity(0.0)) == Some(Rgba(1.0, 0.0, 0.0, 1.0))
    ensures PointColor(RedBlue, Intensity(1.0)) == Some(Rgba(0.0, 0.0, 1.0, 1.0))
  {
  }

  /**
   * getColorForValue: red min(255, 2 * 255 v), green 0, blue
   * min(255, 2 * 255 (1 - v)). Red saturates exactly when v >= 1/2 and blue
   * exactly when v <= 1/2; on [0, 1] both are non-negative and one of them is 255.
   */
  function ColorForValue(v: real): (c: Rgb)
    ensures c.g == 0.0 && c.r <= 255.0 && c.b <= 255.0
    ensures c.r == 255.0 <==> v >= 0.5
    ensures c.b == 255.0 <==> v <= 0.5
    ensures 0.0 <= v <= 1.0 ==> 0.0 <= c.r && 0.0 <= c.b && (c.r == 255.0 || c.b == 255.0)
  {
    Rgb(Min(255.0, v * 2.0 * 255.0), 0.0, Min(255.0, (1.0 - v) * 2.0 * 255.0))
  }

  /** Raising the value never lowers red and never raises blue. */
  lemma ColorForValueMonotone(v: real, w: real)
    requires v <= w
    ensures ColorForValue(v).r <= ColorForValue(w).r
    ensures ColorForValue(v).b >= ColorForValue(w).b
  {
  }

  /** Mirroring the value about 1/2 swaps red and blue. */
  lemma ColorForValueMirror(v: real)
    ensures ColorForValue(1.0 - v).r == ColorForValue(v).b
    ensures ColorForValue(1.0 - v).b == ColorForValue(v).r
  {
  }
}
