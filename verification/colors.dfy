/**
 * 8-bit RGB colours as java.awt.Color holds them, and the two pieces of
 * colour arithmetic the plug-in performs on them: the truncating per-channel
 * average of a list of picked colours, and the contrasting display colour
 * (255 minus each channel) that a mask is painted with.
 */
module Colors {

  /** One colour component; java.awt.Color refuses anything outside 0..255. */
  type Channel = x: int | 0 <= x <= 255

  datatype Rgb = Rgb(red: Channel, green: Channel, blue: Channel)

  /** Names one of the three components, so that a property can be stated once for all three. */
  datatype Band = Red | Green | Blue

  function Component(c: Rgb, band: Band): Channel
  {
    match band
    case Red => c.red
    case Green => c.green
    case Blue => c.blue
  }

  /** The display colour that contrasts with c: each component replaced by 255 minus it. */
  function Inverted(c: Rgb): Rgb
  {
    Rgb(255 - c.red, 255 - c.green, 255 - c.blue)
  }

  /** Inversion is the channel-wise complement, and applying it twice gives the colour back. */
  lemma InvertedIsComplement(c: Rgb)
    ensures forall band :: Component(c, band) + Component(Inverted(c), band) == 255
    ensures Inverted(Inverted(c)) == c
  {
  }

  /** The total of one component over s, accumulated front to back as the averaging loop does. */
  function Sum(s: seq<Rgb>, band: Band): (total: nat)
    ensures total <= 255 * |s|
  {
    if s == [] then 0 else Sum(s[..|s| - 1], band) + Component(s[|s| - 1], band)
  }

  /** Integer division of a non-negative total by a positive count stays below any bound the mean respects. */
  lemma DivisionBetween(total: int, n: int, lo: int, hi: int)
    requires n > 0 && lo * n <= total <= hi * n
    ensures lo <= total / n <= hi
  {
    var q := total / n;
    assert q * n <= total < q * n + n;
    if q > hi {
      assert (hi + 1) * n <= q * n by {
        MultiplyMonotone(hi + 1, q, n);
      }
    }
    if q < lo {
      assert (q + 1) * n <= lo * n by {
        MultiplyMonotone(q + 1, lo, n);
      }
    }
  }

  lemma MultiplyMonotone(a: int, b: int, n: int)
    requires a <= b && n > 0
    ensures a * n <= b * n
  {
    assert b * n - a * n == (b - a) * n;
  }

  lemma MultiplyNext(a: int, n: int)
    ensures a * (n + 1) == a * n + a
  {
  }

  /**
   * The truncating per-channel mean of a non-empty list of colours (Java's
   * integer division, which on non-negative operands agrees with Dafny's).
   */
  function Average(s: seq<Rgb>): (avg: Rgb)
    requires |s| > 0
  {
    DivisionBetween(Sum(s, Red), |s|, 0, 255);
    DivisionBetween(Sum(s, Green), |s|, 0, 255);
    DivisionBetween(Sum(s, Blue), |s|, 0, 255);
    Rgb(Sum(s, Red) / |s|, Sum(s, Green) / |s|, Sum(s, Blue) / |s|)
  }

  /** When every colour's component lies in lo..hi, so does the total divided over the list. */
  lemma {:induction false} SumBetween(s: seq<Rgb>, band: Band, lo: int, hi: int)
    requires forall k :: 0 <= k < |s| ==> lo <= Component(s[k], band) <= hi
    ensures lo * |s| <= Sum(s, band) <= hi * |s|
  {
    if s != [] {
      var init, n := s[..|s| - 1], |s| - 1;
      assert forall k :: 0 <= k < n ==> init[k] == s[k];
      SumBetween(init, band, lo, hi);
      var last := Component(s[n], band);
      assert Sum(s, band) == Sum(init, band) + last;
      MultiplyNext(lo, n);
      MultiplyNext(hi, n);
    }
  }

  /** The average colour lies, channel by channel, between the smallest and largest picked value. */
  lemma AverageBetween(s: seq<Rgb>, band: Band, lo: int, hi: int)
    requires |s| > 0
    requires forall k :: 0 <= k < |s| ==> lo <= Component(s[k], band) <= hi
    ensures lo <= Component(Average(s), band) <= hi
  {
    SumBetween(s, band, lo, hi);
    DivisionBetween(Sum(s, band), |s|, lo, hi);
  }

  /** Averaging a list that repeats one colour gives that colour back. */
  lemma AverageOfRepeated(s: seq<Rgb>, c: Rgb)
    requires |s| > 0
    requires forall k :: 0 <= k < |s| ==> s[k] == c
    ensures Average(s) == c
  {
    AverageBetween(s, Red, c.red, c.red);
    AverageBetween(s, Green, c.green, c.green);
    AverageBetween(s, Blue, c.blue, c.blue);
  }
}
