# ColorPickerThreshold, modelled in Dafny

The plug-in segments an image by colour. The user picks reference colours into a *colour box*: a grid of 3 x 8 = 24 slots, clicking a filled cell removes that colour again. The plug-in then builds a binary *mask* over the image with one of two classifiers.

- **KNN (`filter1`)**: a pixel is kept when its colour, in the chosen colour space, lies strictly closer than the box's threshold to at least one picked colour.
- **SVM (`filter2`)**: a support vector machine is trained on a positive and a negative box, and a pixel is kept when its decision value is positive.

Either mask is painted with the inverse (255 minus each channel) of an average colour, fully opaque. The threshold slider's range comes from the selected colour distance's largest value, through `setDistance`.

The model has these modules:

- `Colors` (`colors.dfy`): 8-bit RGB colours, the truncating per-channel average and the inversion.
- `ColorBoxes` (`color_box.dfy`): the colour box as a class over a 24-slot array, with `InitColors`, `AddColor`, `GetColor`, `GetAverageColor`, `RemoveColor` and `SetThreshold`. Its invariant is that every slot past the count holds the background colour.
- `Masks` (`masks.dfy`): images, masks, the errors a filter raises, row-major cell numbering, and the conversion of a box's colours into colour-space vectors.
- `ThresholdFilter` (`threshold_filter.dfy`): `Filter1`, proved against the specification `ThresholdMask`.
- `SvmFilter` (`svm_filter.dfy`): `Filter2`, proved against the specification `SvmMask`.
- `ThresholdSlider` (`threshold_slider.dfy`): the slider scale `Scale` as integer ceiling arithmetic, and the `SetDistance` method that stores it.

Some code the plug-in calls is not part of this model. Each such call is a function-typed parameter of the operation that uses it:

- the colour-space transforms (`ColorSpaceTools`), which give both the KNN vectors and the SVM training vectors;
- the per-pixel signature extractor of the SVM filter (`ColorPixel.extractLocalSignature`), which is a separate parameter from the transform used for the training vectors;
- the L1 and L2 distances;
- SVM training and prediction;
- the host's average colour of the image under a mask.

The properties are proved for every choice of these functions.

## Model

| member | source | states |
|---|---|---|
| Colors.InvertedIsComplement | NhervePluginColorPickerThreshold/src/plugins/nherve/colorpickerthreshold/ColorPickerThreshold.java:1025-1030 | each channel of the mask colour and of the average add up to 255, and inverting twice gives the colour back |
| Colors.Sum | NhervePluginColorPickerThreshold/src/plugins/nherve/colorpickerthreshold/ColorPickerThreshold.java:297-301 | the running total of one channel over the picked colours never exceeds 255 times their number |
| Colors.SumBetween | NhervePluginColorPickerThreshold/src/plugins/nherve/colorpickerthreshold/ColorPickerThreshold.java:297-301 | when every picked colour's channel lies in lo..hi, the total lies in lo·n..hi·n |
| Colors.AverageBetween | NhervePluginColorPickerThreshold/src/plugins/nherve/colorpickerthreshold/ColorPickerThreshold.java:293-307 | the truncating average lies between the smallest and largest picked value of each channel, so it is a valid colour |
| Colors.AverageOfRepeated | NhervePluginColorPickerThreshold/src/plugins/nherve/colorpickerthreshold/ColorPickerThreshold.java:293-307 | averaging picks that are all one colour gives that colour |
| ColorBoxes.WithoutShiftsLeft | NhervePluginColorPickerThreshold/src/plugins/nherve/colorpickerthreshold/ColorPickerThreshold.java:350-366 | removing entry i keeps the entries before it, shifts the later ones left by one in order, and loses exactly one occurrence of the removed colour |
| ColorBoxes.WithoutLastUndoesAppend | NhervePluginColorPickerThreshold/src/plugins/nherve/colorpickerthreshold/ColorPickerThreshold.java:350-366 | removing the entry just added restores the list as it was before the add |
| ColorBoxes.ShiftedIsWithout | NhervePluginColorPickerThreshold/src/plugins/nherve/colorpickerthreshold/ColorPickerThreshold.java:356-360 | after the shifting loop and the clearing of the last slot, the live prefix is the old list without the removed entry |
| ColorBoxes.ColorBox.constructor | NhervePluginColorPickerThreshold/src/plugins/nherve/colorpickerthreshold/ColorPickerThreshold.java:220-236 | a new box has no picked colour, 24 slots all holding the background, and a zero threshold |
| ColorBoxes.ColorBox.InitColors | NhervePluginColorPickerThreshold/src/plugins/nherve/colorpickerthreshold/ColorPickerThreshold.java:321-328 | the count becomes 0 and every one of the 24 slots holds the background; the box invariant is re-established |
| ColorBoxes.ColorBox.AddColor | NhervePluginColorPickerThreshold/src/plugins/nherve/colorpickerthreshold/ColorPickerThreshold.java:244-255 | with room, the colour goes into slot nbColors, the count grows by one and the list gains it at the end; a full box is unchanged; the invariant is kept |
| ColorBoxes.ColorBox.GetColor | NhervePluginColorPickerThreshold/src/plugins/nherve/colorpickerthreshold/ColorPickerThreshold.java:257-259 | cell (row, col) shows the picked colour at index row·8+col, or the background when that index is past the count |
| ColorBoxes.ColorBox.GetAverageColor | NhervePluginColorPickerThreshold/src/plugins/nherve/colorpickerthreshold/ColorPickerThreshold.java:293-307 | the result is the per-channel sum over the picked colours divided by their number, truncated |
| ColorBoxes.ColorBox.RemoveColor | NhervePluginColorPickerThreshold/src/plugins/nherve/colorpickerthreshold/ColorPickerThreshold.java:350-366 | the outcome of a click on (row, col): ignored when row ≥ 3, col ≥ 8 or the index is at or past the count (nothing changes); a negative index fails before any write (nothing changes); otherwise that entry is removed with order kept, the count drops by one, and the invariant is kept |
| ColorBoxes.ColorBox.SetThreshold | NhervePluginColorPickerThreshold/src/plugins/nherve/colorpickerthreshold/ColorPickerThreshold.java:374-377 | the box's threshold becomes the given value |
| Masks.RowMajorMask | NhervePluginColorPickerThreshold/src/plugins/nherve/colorpickerthreshold/ColorPickerThreshold.java:1007-1024 | a mask built row by row has exactly width·height cells |
| Masks.RowMajorIndex | NhervePluginColorPickerThreshold/src/plugins/nherve/colorpickerthreshold/ColorPickerThreshold.java:1007-1024 | for column i < width and row j < height, the running index j·width+i is inside the mask and decodes back to (i, j) |
| Masks.RowMajorMaskAt | NhervePluginColorPickerThreshold/src/plugins/nherve/colorpickerthreshold/ColorPickerThreshold.java:1007-1024 | cell j·width+i of a row-major mask holds the verdict on pixel (i, j) |
| Masks.PickedVectors | NhervePluginColorPickerThreshold/src/plugins/nherve/colorpickerthreshold/ColorPickerThreshold.java:1002-1005 | the vectors are the box's picked colours converted to the colour space, in pick order |
| ThresholdFilter.ThresholdMaskAt | NhervePluginColorPickerThreshold/src/plugins/nherve/colorpickerthreshold/ColorPickerThreshold.java:1007-1024 | cell j·width+i is set exactly when some picked colour lies strictly closer than the threshold to pixel (i, j) |
| ThresholdFilter.ThresholdMaskMonotone | NhervePluginColorPickerThreshold/src/plugins/nherve/colorpickerthreshold/ColorPickerThreshold.java:1007-1024 | raising the threshold can only add cells to the mask |
| ThresholdFilter.WithinThreshold | NhervePluginColorPickerThreshold/src/plugins/nherve/colorpickerthreshold/ColorPickerThreshold.java:1012-1018 | the scan that stops at the first close reference answers true exactly when some reference is strictly closer than the threshold |
| ThresholdFilter.ScanThreshold | NhervePluginColorPickerThreshold/src/plugins/nherve/colorpickerthreshold/ColorPickerThreshold.java:1007-1024 | the nested row/column loop writes exactly the threshold mask, and no other cell is set |
| ThresholdFilter.Filter1 | NhervePluginColorPickerThreshold/src/plugins/nherve/colorpickerthreshold/ColorPickerThreshold.java:989-1036 | an empty box is refused with the no-colour error before any mask exists; a non-empty box always yields a mask, and that mask is the threshold mask of the picked colours, painted with the inverted average of the picks at opacity 1 |
| SvmFilter.SvmMaskAt | NhervePluginColorPickerThreshold/src/plugins/nherve/colorpickerthreshold/ColorPickerThreshold.java:1106-1117 | cell y·width+x is set exactly when the decision value, for the model trained on both boxes' converted colours, of pixel (x, y)'s extracted signature is positive |
| SvmFilter.ScanDecision | NhervePluginColorPickerThreshold/src/plugins/nherve/colorpickerthreshold/ColorPickerThreshold.java:1106-1117 | the nested row/column loop writes exactly the decision mask, and no other cell is set |
| SvmFilter.Filter2 | NhervePluginColorPickerThreshold/src/plugins/nherve/colorpickerthreshold/ColorPickerThreshold.java:1053-1127 | an empty positive box is refused first and an empty negative box second; otherwise the mask is the decision mask of the model trained on both boxes' colours, applied to each pixel's extracted signature, painted with the inverse of the average under the mask at opacity 1 |
| ThresholdSlider.CeilDivIsLeastUpperQuotient | NhervePluginColorPickerThreshold/src/plugins/nherve/colorpickerthreshold/ColorPickerThreshold.java:1231-1234 | the ceiling quotient q of a by b is the least q with a ≤ q·b |
| ThresholdSlider.RoundedUpToMultiple | NhervePluginColorPickerThreshold/src/plugins/nherve/colorpickerthreshold/ColorPickerThreshold.java:1233 | rounding m up to a multiple of b gives a multiple of b in m..m+b-1 |
| ThresholdSlider.ScaleTicks | NhervePluginColorPickerThreshold/src/plugins/nherve/colorpickerthreshold/ColorPickerThreshold.java:1231-1232 | for m > 0 the major tick is 20 per started hundred of m, and the minor tick is a fifth of it |
| ThresholdSlider.ScaleMaximum | NhervePluginColorPickerThreshold/src/plugins/nherve/colorpickerthreshold/ColorPickerThreshold.java:1233 | for m > 0 the maximum is the least multiple of the positive major tick that is at least m, so m ≤ max < m + major |
| ThresholdSlider.ScaleDefault | NhervePluginColorPickerThreshold/src/plugins/nherve/colorpickerthreshold/ColorPickerThreshold.java:1234 | for m > 0 the default threshold is the ceiling of a tenth of the maximum, and it lies in 1..max |
| ThresholdSlider.ScaleOfZero | NhervePluginColorPickerThreshold/src/plugins/nherve/colorpickerthreshold/ColorPickerThreshold.java:1227-1235 | a distance whose largest value truncates to 0 gives an all-zero scale, as Java's NaN-to-int conversion does |
| ThresholdSlider.DistanceSettings.SetDistance | NhervePluginColorPickerThreshold/src/plugins/nherve/colorpickerthreshold/ColorPickerThreshold.java:1227-1235 | the distance is stored, and the slider maximum, the ticks and the default equal the scale of the truncated largest distance |
| ThresholdSlider.DistanceSettings.constructor | NhervePluginColorPickerThreshold/src/plugins/nherve/colorpickerthreshold/ColorPickerThreshold.java:1252-1253 | the panel starts with the L1 distance's settings, as setDistance computes them |

## Left out

- Swing and AWT user interface: panels, sliders, radio buttons, painting, mouse and key handlers, and the listener notifications (`fire*Event`, `repaint`, enabling buttons). These carry no algorithmic content. The mouse handler's pixel-to-cell conversion (lines 126-132) is reduced to the (row, col) that `RemoveColor` receives.
- Colour-space transforms, the L1 and L2 distances, SVM training and prediction, and the host's `Mask.getAverageColor(image)`: these are function parameters. Their Java code is not part of this model, and it works in floating point.
- ThresholdFilter.Filter1 and SvmFilter.Filter2: the foreign calls' `SignatureException` path (both methods declare it) is not modelled. The function parameters always return a vector, so that error never arises.
- Floating point: `double` values are mathematical reals, and the distance and decision values are whatever the parameters return.
- SvmFilter.Filter2: the C and gamma values (`Math.pow(2, …)` of the slider exponents) and the kernel radio buttons are only passed to the decision function as `SvmParameters`. Their effect on training is not modelled.
- The rescaling of the slider value by a percentage when switching between L1 and L2 (lines 899-911) is floating-point UI calibration.
- `doFilter`'s painter and sequence bookkeeping, and its swallowing of `MaskException`. The filters return `Err` instead of throwing.
- ThresholdSlider.DistanceSettings.SetDistance: requires the largest distance to lie in 0 .. 10^9. Java's `int` arithmetic and its saturating `(int)` cast of a huge double are therefore not modelled; the L1 and L2 maxima are far below this bound.
- ColorBoxes.ColorBox.RemoveColor: `row * 8 + col` is exact integer arithmetic. The 32-bit wrap-around for extreme row or column values is not modelled.
- ColorBoxes.ColorBox.GetColor: requires the cell index to lie in 0..23. Java would throw `ArrayIndexOutOfBoundsException` outside that range; the panel only asks for its own cells.
- ColorBoxes.ColorBox.AddColor: takes an `Rgb` whose channels are already in 0..255. Java's `new Color(c[0], c[1], c[2])` would throw on an out-of-range channel, and that path is not modelled.
- `width * height` for the mask size is exact. Java's `int` overflow for gigantic images is not modelled.
- The background colour is a constant of each box, fixed at construction. In Swing it is read from the panel each time it is needed.
