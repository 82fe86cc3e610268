/**
 * The range of the threshold slider, recomputed whenever the colour distance
 * changes: the distance's largest value, truncated to an integer, is rounded
 * up to whole major ticks, and the ticks and the default threshold follow by
 * ceiling division.
 */
module ThresholdSlider {
  import opened Masks
  import Colors

  /** The slider's maximum, its major and minor tick spacings and the default threshold. */
  datatype SliderScale = SliderScale(maximum: int, majorTick: int, minorTick: int, defaultValue: int)

  /** Math.ceil(a / b) on exact quotients. */
  function CeilDiv(a: int, b: int): int
    requires b > 0
  {
    -((-a) / b)
  }

  /** CeilDiv(a, b) is the least q with a <= q * b. */
  lemma CeilDivIsLeastUpperQuotient(a: int, b: int)
    requires b > 0
    ensures (CeilDiv(a, b) - 1) * b < a <= CeilDiv(a, b) * b
  {
    var f := (-a) / b;
    assert f * b <= -a < f * b + b;
    assert CeilDiv(a, b) * b == -(f * b);
    assert (CeilDiv(a, b) - 1) * b == -(f * b) - b;
  }

  /**
   * The scale for a distance whose largest value truncates to m. When m is 0,
   * Java divides 0.0 by a zero major tick; the NaN it gets converts to 0, so
   * every field is 0.
   */
  function Scale(m: nat): SliderScale
  {
    var major := CeilDiv(m, 100) * 20;
    var minor := CeilDiv(major, 5);
    var maximum := (if major == 0 then 0 else CeilDiv(m, major)) * major;
    SliderScale(maximum, major, minor, CeilDiv(maximum, 10))
  }

  /** A multiple of b leaves no remainder. */
  lemma MultipleHasNoRemainder(q: int, b: int)
    requires b > 0
    ensures (q * b) % b == 0
  {
    var d, r := (q * b) / b, (q * b) % b;
    assert (q - d) * b == r by {
      assert d * b + r == q * b;
    }
    if q - d >= 1 {
      Colors.MultiplyMonotone(1, q - d, b);
    } else if q - d <= -1 {
      Colors.MultiplyMonotone(q - d, -1, b);
    }
  }

  /** CeilDiv(m, b) * b is the least multiple of b that is not below m. */
  lemma RoundedUpToMultiple(m: int, b: int)
    requires b > 0
    ensures CeilDiv(m, b) * b % b == 0
    ensures m <= CeilDiv(m, b) * b < m + b
  {
    var q := CeilDiv(m, b);
    CeilDivIsLeastUpperQuotient(m, b);
    MultipleHasNoRemainder(q, b);
    assert (q - 1) * b == q * b - b;
  }

  /** For a positive m the major tick is 20 per started hundred of m, and the minor tick a fifth of it. */
  lemma ScaleTicks(m: nat)
    requires m > 0
    ensures Scale(m).majorTick % 20 == 0
    ensures 100 * (Scale(m).majorTick / 20 - 1) < m <= 100 * (Scale(m).majorTick / 20)
    ensures Scale(m).minorTick * 5 == Scale(m).majorTick
  {
    var hundreds := CeilDiv(m, 100);
    CeilDivIsLeastUpperQuotient(m, 100);
    assert Scale(m).majorTick == hundreds * 20;
    assert Scale(m).minorTick == CeilDiv(hundreds * 20, 5);
  }

  /** For a positive m the maximum is the least multiple of the major tick that is not below m. */
  lemma ScaleMaximum(m: nat)
    requires m > 0
    ensures Scale(m).majorTick > 0
    ensures Scale(m).maximum % Scale(m).majorTick == 0
    ensures m <= Scale(m).maximum < m + Scale(m).majorTick
  {
    var major := CeilDiv(m, 100) * 20;
    CeilDivIsLeastUpperQuotient(m, 100);
    assert major > 0;
    assert Scale(m).majorTick == major;
    assert Scale(m).maximum == CeilDiv(m, major) * major;
    RoundedUpToMultiple(m, major);
  }

  /** For a positive m the default threshold is the least integer not below a tenth of the maximum. */
  lemma ScaleDefault(m: nat)
    requires m > 0
    ensures 10 * (Scale(m).defaultValue - 1) < Scale(m).maximum <= 10 * Scale(m).defaultValue
    ensures 0 < Scale(m).defaultValue <= Scale(m).maximum
  {
    ScaleMaximum(m);
    var maximum := Scale(m).maximum;
    assert Scale(m).defaultValue == CeilDiv(maximum, 10);
    CeilDivIsLeastUpperQuotient(maximum, 10);
  }

  /** When the distance's largest value truncates to 0, every field of the scale is 0 (Java's NaN case). */
  lemma ScaleOfZero()
    ensures Scale(0) == SliderScale(0, 0, 0, 0)
  {
  }

  /** The part of the plug-in's state that the choice of colour distance determines. */
  class DistanceSettings {
    var distance: ColorDistance
    var colMaxDist: int
    var slMajTick: int
    var slMinTick: int
    var colDefaultDist: int

    /** The settings the panel starts with, for the distance selected at start-up. */
    constructor (initial: ColorDistance)
      requires 0.0 <= initial.maxDistance < 1_000_000_000.0
      ensures distance == initial
      ensures SliderScale(colMaxDist, slMajTick, slMinTick, colDefaultDist) == Scale(initial.maxDistance.Floor)
    {
      distance := initial;
      colMaxDist, slMajTick, slMinTick, colDefaultDist := 0, 0, 0, 0;
      new;
      SetDistance(initial);
    }

    /** Selects a colour distance and recomputes the slider range from its largest value. */
    method SetDistance(d: ColorDistance)
      requires 0.0 <= d.maxDistance < 1_000_000_000.0
      modifies this
      ensures distance == d
      ensures SliderScale(colMaxDist, slMajTick, slMinTick, colDefaultDist) == Scale(d.maxDistance.Floor)
    {
      var scale := Scale(d.maxDistance.Floor);
      colMaxDist, slMajTick, slMinTick, colDefaultDist := scale.maximum, scale.majorTick, scale.minorTick, scale.defaultValue;
      distance := d;
    }
  }
}
