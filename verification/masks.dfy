/**
 * What both filters share: the image they scan, the binary mask they build
 * (one cell per pixel, row by row, plus the colour and opacity it is painted
 * with), the error a filter raises instead of building one, and the
 * colour-space vectors and distance the classifiers work on.
 */
module Masks {
  import opened Colors
  import opened ColorBoxes

  /** A pixel's coordinates in a working colour space (RGB, HSV or H1H2H3). */
  type Vector = seq<real>

  /** A colour distance: the distance itself and the largest value it can take. */
  datatype ColorDistance = ColorDistance(compute: (Vector, Vector) -> real, maxDistance: real)

  /** The first image of the sequence being filtered: its size and the colour at column x, row y. */
  datatype Image = Image(width: nat, height: nat, pixel: (nat, nat) -> Rgb)

  /** A binary mask the size of the image, cells in row-major order, with its display colour and opacity. */
  datatype Mask = Mask(width: nat, height: nat, cells: seq<bool>, color: Rgb, opacity: real)

  /** Why a filter refused to build a mask. */
  datatype MaskError = NoColorSelected | NoPositiveColor | NoNegativeColor

  datatype Result<T> = Ok(value: T) | Err(error: MaskError)

  /** Pixel number n of the image when pixels are counted row by row. */
  function RowMajorPixel(image: Image, n: nat): Rgb
    requires image.width > 0
  {
    image.pixel(n % image.width, n / image.width)
  }

  /** The mask whose cell number n (counted row by row) is the verdict on pixel number n. */
  function RowMajorMask(image: Image, verdict: Rgb -> bool): (cells: seq<bool>)
    ensures |cells| == image.width * image.height
  {
    if image.width == 0 then []
    else seq(image.width * image.height, n requires 0 <= n < image.width * image.height =>
               verdict(RowMajorPixel(image, n)))
  }

  /** Cell j * width + i is the one for column i of row j, and every such cell lies inside the mask. */
  lemma RowMajorIndex(width: nat, height: nat, i: nat, j: nat)
    requires i < width && j < height
    ensures j * width + i < width * height
    ensures (j * width + i) % width == i && (j * width + i) / width == j
  {
    var n := j * width + i;
    assert (j + 1) * width == j * width + width;
    assert (j + 1) * width <= height * width by {
      MultiplyMonotone(j + 1, height, width);
    }
    var q, r := n / width, n % width;
    assert q * width + r == j * width + i;
    if q > j {
      MultiplyMonotone(j + 1, q, width);
    } else if q < j {
      MultiplyMonotone(q + 1, j, width);
    }
  }

  /** The mask holds, for column i of row j, the verdict on the pixel at (i, j). */
  lemma RowMajorMaskAt(image: Image, verdict: Rgb -> bool, i: nat, j: nat)
    requires i < image.width && j < image.height
    ensures j * image.width + i < |RowMajorMask(image, verdict)|
    ensures RowMajorMask(image, verdict)[j * image.width + i] == verdict(image.pixel(i, j))
  {
    RowMajorIndex(image.width, image.height, i, j);
    var n := j * image.width + i;
    assert RowMajorMask(image, verdict)[n] == verdict(RowMajorPixel(image, n));
  }

  /** Each colour of colors converted to the working colour space, in order. */
  function ChannelVectors(colors: seq<Rgb>, space: Rgb -> Vector): seq<Vector>
  {
    seq(|colors|, k requires 0 <= k < |colors| => space(colors[k]))
  }

  /** Converts the picked colours of box, oldest first, into the working colour space. */
  method PickedVectors(box: ColorBox, space: Rgb -> Vector) returns (vs: seq<Vector>)
    requires box.Valid()
    ensures vs == ChannelVectors(box.Contents(), space)
  {
    ghost var picked := box.Contents();
    vs := [];
    for k := 0 to box.nbColors
      invariant |vs| == k
      invariant forall k' :: 0 <= k' < k ==> vs[k'] == space(picked[k'])
    {
      vs := vs + [space(box.colors[k])];
    }
  }
}
