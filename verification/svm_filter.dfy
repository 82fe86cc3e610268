/**
 * The support-vector-machine filter: a classifier is trained on the positive
 * and negative picked colours, and a pixel belongs to the mask when the
 * trained model's decision value for it is positive. Training and prediction
 * belong to a separate toolbox; here they are one function that gives the
 * decision value from the training samples, the parameters and the vector.
 */
module SvmFilter {
  import opened Colors
  import opened Masks
  import opened ColorBoxes

  datatype Kernel = Linear | Triangular | Rbf

  /** The kernel and the exponents of C and gamma (the classifier uses 2^exponent). */
  datatype SvmParameters = SvmParameters(kernel: Kernel, cExponent: int, gammaExponent: int)

  /**
   * The mask of the pixels to which the model trained on pos and neg gives a
   * positive decision value; pixelVector is the host's signature extractor
   * for one pixel.
   */
  function DecisionMask(image: Image, pos: seq<Vector>, neg: seq<Vector>, pixelVector: Rgb -> Vector,
                        params: SvmParameters, decision: (seq<Vector>, seq<Vector>, SvmParameters, Vector) -> real): seq<bool>
  {
    RowMajorMask(image, c => decision(pos, neg, params, pixelVector(c)) > 0.0)
  }

  /**
   * The mask the filter specifies: a pixel is in it when the model trained on
   * the positive and negative colours (each in the working space scaled to
   * 0..1 by unitSpace) gives the pixel's signature vector a positive decision
   * value.
   */
  function SvmMask(image: Image, positives: seq<Rgb>, negatives: seq<Rgb>, unitSpace: Rgb -> Vector, pixelVector: Rgb -> Vector,
                   params: SvmParameters, decision: (seq<Vector>, seq<Vector>, SvmParameters, Vector) -> real): seq<bool>
  {
    DecisionMask(image, ChannelVectors(positives, unitSpace), ChannelVectors(negatives, unitSpace), pixelVector, params, decision)
  }

  /** Column i of row j is in the mask exactly when the model's decision value for pixel (i, j) is positive. */
  lemma SvmMaskAt(image: Image, positives: seq<Rgb>, negatives: seq<Rgb>, unitSpace: Rgb -> Vector, pixelVector: Rgb -> Vector,
                  params: SvmParameters, decision: (seq<Vector>, seq<Vector>, SvmParameters, Vector) -> real, i: nat, j: nat)
    requires i < image.width && j < image.height
    ensures j * image.width + i < |SvmMask(image, positives, negatives, unitSpace, pixelVector, params, decision)|
    ensures SvmMask(image, positives, negatives, unitSpace, pixelVector, params, decision)[j * image.width + i]
        <==> decision(ChannelVectors(positives, unitSpace), ChannelVectors(negatives, unitSpace), params,
                      pixelVector(image.pixel(i, j))) > 0.0
  {
    var pos, neg := ChannelVectors(positives, unitSpace), ChannelVectors(negatives, unitSpace);
    RowMajorMaskAt(image, c => decision(pos, neg, params, pixelVector(c)) > 0.0, i, j);
  }

  /** Scans the image row by row and sets the cell of every pixel the trained model classifies as positive. */
  method ScanDecision(image: Image, pos: seq<Vector>, neg: seq<Vector>, pixelVector: Rgb -> Vector,
                      params: SvmParameters, decision: (seq<Vector>, seq<Vector>, SvmParameters, Vector) -> real)
    returns (cells: seq<bool>)
    ensures cells == DecisionMask(image, pos, neg, pixelVector, params, decision)
  {
    ghost var mask := DecisionMask(image, pos, neg, pixelVector, params, decision);
    var raw := new bool[image.width * image.height](_ => false);
    var idx := 0;
    for y := 0 to image.height
      invariant idx == y * image.width && idx <= raw.Length
      invariant forall n :: 0 <= n < idx ==> raw[n] == mask[n]
      invariant forall n :: idx <= n < raw.Length ==> !raw[n]
    {
      for x := 0 to image.width
        invariant idx == y * image.width + x && idx <= raw.Length
        invariant forall n :: 0 <= n < idx ==> raw[n] == mask[n]
        invariant forall n :: idx <= n < raw.Length ==> !raw[n]
      {
        RowMajorMaskAt(image, c => decision(pos, neg, params, pixelVector(c)) > 0.0, x, y);
        var vs := pixelVector(image.pixel(x, y));
        if decision(pos, neg, params, vs) > 0.0 {
          raw[idx] := true;
        }
        idx := idx + 1;
      }
      assert idx == (y + 1) * image.width;
    }
    assert raw[..] == mask;
    cells := raw[..];
  }

  /**
   * Builds the SVM mask, refusing first when no positive colour is picked and
   * then when no negative colour is. The training vectors come from unitSpace,
   * each pixel's vector from the host's extractor pixelVector. The mask is painted with the inverse of
   * the average image colour under the mask (maskAverage, computed by the
   * host), fully opaque.
   */
  method Filter2(boxP: ColorBox, boxN: ColorBox, image: Image, unitSpace: Rgb -> Vector, pixelVector: Rgb -> Vector,
                 params: SvmParameters,
                 decision: (seq<Vector>, seq<Vector>, SvmParameters, Vector) -> real,
                 maskAverage: seq<bool> -> Rgb) returns (r: Result<Mask>)
    requires boxP.Valid() && boxN.Valid()
    ensures boxP.nbColors == 0 ==> r == Err(NoPositiveColor)
    ensures boxP.nbColors > 0 && boxN.nbColors == 0 ==> r == Err(NoNegativeColor)
    ensures boxP.nbColors > 0 && boxN.nbColors > 0 ==>
      && r.Ok?
      && var cells := SvmMask(image, boxP.Contents(), boxN.Contents(), unitSpace, pixelVector, params, decision);
         r.value == Mask(image.width, image.height, cells, Inverted(maskAverage(cells)), 1.0)
  {
    if boxP.nbColors == 0 {
      return Err(NoPositiveColor);
    }
    if boxN.nbColors == 0 {
      return Err(NoNegativeColor);
    }
    var pos := PickedVectors(boxP, unitSpace);
    var neg := PickedVectors(boxN, unitSpace);
    var cells := ScanDecision(image, pos, neg, pixelVector, params, decision);
    r := Ok(Mask(image.width, image.height, cells, Inverted(maskAverage(cells)), 1.0));
  }
}
