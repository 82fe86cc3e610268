/**
 * The distance-threshold ("KNN") filter: a pixel belongs to the mask when its
 * colour, in the chosen colour space, lies strictly closer than the box's
 * threshold to at least one of the picked reference colours.
 */
module ThresholdFilter {
  import opened Colors
  import opened Masks
  import opened ColorBoxes

  /** Some reference vector lies strictly within threshold of v. */
  predicate Near(v: Vector, refs: seq<Vector>, distance: ColorDistance, threshold: int)
  {
    exists k :: 0 <= k < |refs| && distance.compute(v, refs[k]) < threshold as real
  }

  /** The mask of the pixels whose vector in the working colour space is near one of refs. */
  function NearMask(image: Image, space: Rgb -> Vector, refs: seq<Vector>, distance: ColorDistance, threshold: int): seq<bool>
  {
    RowMajorMask(image, c => Near(space(c), refs, distance, threshold))
  }

  /** The mask the threshold filter specifies for the picked colours refs. */
  function ThresholdMask(image: Image, refs: seq<Rgb>, space: Rgb -> Vector, distance: ColorDistance, threshold: int): seq<bool>
  {
    NearMask(image, space, ChannelVectors(refs, space), distance, threshold)
  }

  /** Column i of row j is in the mask exactly when some reference colour is closer than the threshold to pixel (i, j). */
  lemma ThresholdMaskAt(image: Image, refs: seq<Rgb>, space: Rgb -> Vector, distance: ColorDistance, threshold: int, i: nat, j: nat)
    requires i < image.width && j < image.height
    ensures j * image.width + i < |ThresholdMask(image, refs, space, distance, threshold)|
    ensures ThresholdMask(image, refs, space, distance, threshold)[j * image.width + i]
        <==> exists k :: 0 <= k < |refs| && distance.compute(space(image.pixel(i, j)), space(refs[k])) < threshold as real
  {
    var vs := ChannelVectors(refs, space);
    RowMajorMaskAt(image, c => Near(space(c), vs, distance, threshold), i, j);
    var v := space(image.pixel(i, j));
    if Near(v, vs, distance, threshold) {
      var k :| 0 <= k < |vs| && distance.compute(v, vs[k]) < threshold as real;
      assert distance.compute(v, space(refs[k])) < threshold as real;
    } else {
      forall k | 0 <= k < |refs|
        ensures !(distance.compute(v, space(refs[k])) < threshold as real)
      {
        assert vs[k] == space(refs[k]);
      }
    }
  }

  /** Raising the threshold can only add pixels to the mask, never remove any. */
  lemma ThresholdMaskMonotone(image: Image, refs: seq<Rgb>, space: Rgb -> Vector, distance: ColorDistance, low: int, high: int)
    requires low <= high
    ensures |ThresholdMask(image, refs, space, distance, low)| == |ThresholdMask(image, refs, space, distance, high)|
    ensures forall n :: 0 <= n < |ThresholdMask(image, refs, space, distance, low)| && ThresholdMask(image, refs, space, distance, low)[n]
                        ==> ThresholdMask(image, refs, space, distance, high)[n]
  {
    var lowMask, highMask := ThresholdMask(image, refs, space, distance, low), ThresholdMask(image, refs, space, distance, high);
    var vs := ChannelVectors(refs, space);
    forall n | 0 <= n < |lowMask| && lowMask[n]
      ensures highMask[n]
    {
      var v := space(RowMajorPixel(image, n));
      assert Near(v, vs, distance, low);
      var k :| 0 <= k < |vs| && distance.compute(v, vs[k]) < low as real;
      assert Near(v, vs, distance, high);
    }
  }

  /** Scans the reference vectors in order and stops at the first one strictly closer than threshold to cc. */
  method WithinThreshold(cc: Vector, csColors: seq<Vector>, distance: ColorDistance, threshold: int) returns (keep: bool)
    ensures keep <==> Near(cc, csColors, distance, threshold)
  {
    keep := false;
    var k := 0;
    while k < |csColors|
      invariant 0 <= k <= |csColors| && !keep
      invariant forall k' :: 0 <= k' < k ==> !(distance.compute(cc, csColors[k']) < threshold as real)
    {
      if distance.compute(cc, csColors[k]) < threshold as real {
        keep := true;
        break;
      }
      k := k + 1;
    }
  }

  /** Scans the image row by row and sets the cell of every pixel near one of csColors. */
  method ScanThreshold(image: Image, space: Rgb -> Vector, csColors: seq<Vector>, distance: ColorDistance, threshold: int)
    returns (cells: seq<bool>)
    ensures cells == NearMask(image, space, csColors, distance, threshold)
  {
    ghost var mask := NearMask(image, space, csColors, distance, threshold);
    var raw := new bool[image.width * image.height](_ => false);
    var idx := 0;
    for j := 0 to image.height
      invariant idx == j * image.width && idx <= raw.Length
      invariant forall n :: 0 <= n < idx ==> raw[n] == mask[n]
      invariant forall n :: idx <= n < raw.Length ==> !raw[n]
    {
      for i := 0 to image.width
        invariant idx == j * image.width + i && idx <= raw.Length
        invariant forall n :: 0 <= n < idx ==> raw[n] == mask[n]
        invariant forall n :: idx <= n < raw.Length ==> !raw[n]
      {
        RowMajorMaskAt(image, c => Near(space(c), csColors, distance, threshold), i, j);
        var cc := space(image.pixel(i, j));
        var keep := WithinThreshold(cc, csColors, distance, threshold);
        if keep {
          raw[idx] := true;
        }
        idx := idx + 1;
      }
      assert idx == (j + 1) * image.width;
    }
    assert raw[..] == mask;
    cells := raw[..];
  }

  /**
   * Builds the threshold mask for the picked colours of box, or refuses when
   * none is picked. The mask is painted with the inverse of the picked
   * colours' average, fully opaque.
   */
  method Filter1(box: ColorBox, image: Image, space: Rgb -> Vector, distance: ColorDistance) returns (r: Result<Mask>)
    requires box.Valid()
    ensures box.nbColors == 0 ==> r == Err(NoColorSelected)
    ensures box.nbColors > 0 ==>
      && r.Ok?
      && r.value == Mask(image.width, image.height,
                         ThresholdMask(image, box.Contents(), space, distance, box.threshold),
                         Inverted(Average(box.Contents())), 1.0)
  {
    if box.nbColors == 0 {
      return Err(NoColorSelected);
    }
    var csColors := PickedVectors(box, space);
    var cells := ScanThreshold(image, space, csColors, distance, box.threshold);
    var c := box.GetAverageColor();
    r := Ok(Mask(image.width, image.height, cells, Inverted(c), 1.0));
  }
}
