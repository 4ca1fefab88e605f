# Visual translator core, in Dafny

This project models the deterministic core of the visual translator. That program
finds text in a poster image, erases it, translates it and draws the translation
back in place. The model covers:

- **Colour choice** (`ColorUtils`): the background colour of a crop, estimated from
  its 5-pixel border band, or from all of its pixels when the crop is small. Black
  or white text is then chosen by BT.601 luminance, with an inverted outline colour.
- **Box geometry** (`Geometry`): the width and height of a detected quadrilateral,
  truncated to integers, and its truncated centroid.
- **Rendering arithmetic** (`Renderer`): the zero-area skip, the linear font-shrink
  search, centring offsets, stroke width and the paste origin of the rotated layer.
- **Erase mask** (`Mask`): the union of the filled text polygons, dilated twice with
  a 5x5 kernel.
- **OCR parsing** (`Detector`): both result formats, the first page only, and the
  0.85 confidence filter.
- **Translation wrapper** (`Translator`): identity without a model, response
  cleaning, and the 404 / NOT_FOUND fallback.
- **The run** (`Pipeline`): the padded crop of each box, the crop's text colour, the
  mask, and per-region translate-and-render in detection order.

Calls the model cannot see are parameters:

- **OCR result**: `Detect`'s input.
- **Image**: `Run`'s `original`, which is `None` when the image cannot be read.
- **Polygon fill**: a pixel set per box.
- **Language models**: the reply of each model to each region's call.
- **Font measuring**: a size-to-extent function.
- **Rotation**: a layer-size function.

Two behaviours of the code that are easy to misread follow the code:

- **Text colour at luminance 128**: the comment at color_utils.py:50 calls a
  luminance of 128 or above bright, but line 51 compares with a strict `>`. So
  luminance exactly 128 gives white text (`TextColorBoundary`).
- **Font size of small boxes**: the shrink loop (renderer.py:32-43) starts at the
  box height and runs only while the size is above 5. Nothing raises the size of a
  box 1 to 5 pixels tall to 5, so such a box keeps its height as the font size
  (`ShrinkFont`).

## Model

| member | source | states |
|---|---|---|
| ColorUtils.DominantColor | visual-translator/src/color_utils.py:9-38 | an empty crop gives (0, 0, 0); a crop at most 10 pixels high or wide gives the floor of the mean of all its pixels, and a larger crop the floor of the mean of its four 5-pixel border bands, each reversed into RGB; every channel is a byte |
| ColorUtils.MeanRgb | visual-translator/src/color_utils.py:34-37 | each output channel, in reversed RGB order, is the same-named channel's total over the samples divided by their number and rounded down |
| ColorUtils.ChannelMeanBetween | visual-translator/src/color_utils.py:34-37 | the truncated mean of a channel lies between that channel's smallest and largest sample |
| ColorUtils.MeanRgbBetween | visual-translator/src/color_utils.py:19-38 | after the BGR-to-RGB reversal each output channel lies between the bounds of the same-named input channel, so channels keep their names |
| ColorUtils.MeanRgbUniform | visual-translator/src/color_utils.py:19-38 | samples of one colour average to exactly that colour, reversed into RGB |
| ColorUtils.BorderSamples | visual-translator/src/color_utils.py:22-33 | the four concatenated bands of a large crop hold 10*w + 10*h samples |
| ColorUtils.FlattenAt | visual-translator/src/color_utils.py:28-31 | flattening rows of width k row by row, as `reshape(-1, 3)` does, puts pixel (i, j) at position i*k + j |
| ColorUtils.BorderBlocks | visual-translator/src/color_utils.py:22-33 | the samples are the flattened top 5 rows, then the bottom 5 rows, then the left 5 columns, then the right 5 columns, of lengths 5w, 5w, 5h and 5h |
| ColorUtils.BorderTopAt | visual-translator/src/color_utils.py:22-33 | pixel (y, x) of the top 5 rows is sample y*w + x |
| ColorUtils.BorderBottomAt | visual-translator/src/color_utils.py:23-33 | pixel (h-5+i, x) of the bottom 5 rows is sample 5w + i*w + x |
| ColorUtils.BorderLeftAt | visual-translator/src/color_utils.py:24-33 | pixel (y, x) of the left 5 columns is sample 10w + 5y + x |
| ColorUtils.BorderRightAt | visual-translator/src/color_utils.py:25-33 | pixel (y, x) of the right 5 columns is sample 10w + 5h + 5y + (x - (w-5)) |
| ColorUtils.RowSample | visual-translator/src/color_utils.py:22-33 | every pixel of the top or bottom 5 rows is among the first 10w samples |
| ColorUtils.ColumnSample | visual-translator/src/color_utils.py:24-33 | every pixel of the left or right 5 columns is among the samples after the first 10w |
| ColorUtils.CornerSampledTwice | visual-translator/src/color_utils.py:22-33 | a pixel in both a row band and a column band appears at two distinct sample positions, so corners weigh double in the mean |
| ColorUtils.BandPixelSampled | visual-translator/src/color_utils.py:22-33 | every pixel within 5 of an edge of a large crop is sampled |
| ColorUtils.SampleIsBandPixel | visual-translator/src/color_utils.py:22-33 | every sample of a large crop is a pixel within 5 of an edge |
| ColorUtils.InteriorIgnored | visual-translator/src/color_utils.py:17-34 | two large crops of one size that agree on their border band get the same colour, whatever their interiors |
| ColorUtils.UniformBorder | visual-translator/src/color_utils.py:17-38 | a large crop whose border band is one colour gets that colour |
| ColorUtils.SmallCropBetween | visual-translator/src/color_utils.py:17-19 | a crop of at most 10 rows or columns gets a colour within the channel ranges of all its pixels |
| ColorUtils.BandCropBetween | visual-translator/src/color_utils.py:20-37 | a larger crop gets a colour within the channel ranges of its 5-pixel border band alone |
| ColorUtils.UniformSmallCrop | visual-translator/src/color_utils.py:17-19 | a crop of at most 10 rows or columns that is one colour gets that colour |
| ColorUtils.TextColor | visual-translator/src/color_utils.py:40-54 | text is black or white, and black exactly when 0.299r + 0.587g + 0.114b exceeds 128 |
| ColorUtils.TextColorMonotone | visual-translator/src/color_utils.py:48-54 | brightening any channel of a background with black text keeps black text |
| ColorUtils.TextColorBoundary | visual-translator/src/color_utils.py:51-54 | grey 128 gives white text and (129, 128, 128) black; black and white backgrounds get the opposite colour |
| ColorUtils.Invert | visual-translator/src/renderer.py:53 | each outline channel and the matching text channel sum to 255 |
| ColorUtils.InvertInvolution | visual-translator/src/renderer.py:53 | inverting twice gives back the colour |
| ColorUtils.OutlineContrasts | visual-translator/src/renderer.py:53 | the outline of black text is white and the outline of white text is black |
| Geometry.Isqrt | visual-translator/src/renderer.py:20-21 | the truncated length r of a squared distance n satisfies r*r <= n < (r+1)*(r+1) |
| Geometry.IsqrtLargest | visual-translator/src/renderer.py:20-21 | m*m <= n exactly when m is at most the truncated length |
| Geometry.IsqrtUnique | visual-translator/src/renderer.py:20-21 | only one natural number lies in the square-root bracket |
| Geometry.EdgeLengthZero | visual-translator/src/renderer.py:20-24 | an edge has truncated length 0 exactly when its two corners coincide |
| Geometry.AxisEdgeLength | visual-translator/src/renderer.py:20-21 | a horizontal or vertical edge of k pixels has length k |
| Geometry.AxisBoxSize | visual-translator/src/renderer.py:20-21 | an axis-aligned w x h box has width w and height h |
| Geometry.Width | visual-translator/src/renderer.py:20 | the width is the integer part of the length of the edge from the first corner to the second, and is 0 exactly when they coincide |
| Geometry.Height | visual-translator/src/renderer.py:21 | the height is the integer part of the length of the edge from the first corner to the fourth, and is 0 exactly when they coincide |
| Geometry.TruncDiv | visual-translator/src/renderer.py:68-69 | `int()` of a mean truncates toward zero, for negative sums too |
| Geometry.Centroid | visual-translator/src/renderer.py:68-69 | each coordinate of the centre is the mean of the four corners' coordinates truncated toward zero: four times it is within 4 of the sum, on the sum's side of 0 |
| Geometry.CentroidInsideBounds | visual-translator/src/renderer.py:68-69 | the truncated centre lies within the box's coordinate range |
| Renderer.ShrinkFont | visual-translator/src/renderer.py:32-43 | the size is the largest in (5, height] whose text fits, else 5 (or the height, when it is at most 5); the sizes measured run down from the height, one per step, never 5 |
| Renderer.BestFitUnique | visual-translator/src/renderer.py:32-46 | the best-fit size is unique |
| Renderer.CenterOffset | visual-translator/src/renderer.py:49-50 | the leftover space is split with at most one more pixel after the text; the offset is negative exactly when the text overflows |
| Renderer.StrokeWidth | visual-translator/src/renderer.py:56 | at least 1; one pixel per 15 of font size; 1 below size 30 |
| Renderer.StrokeWidthMonotone | visual-translator/src/renderer.py:56 | a larger font never gets a thinner stroke |
| Renderer.PasteOrigin | visual-translator/src/renderer.py:72-74 | the rotated layer's centre pixel lands on the box centre |
| Renderer.Render | visual-translator/src/renderer.py:20-76 | nothing is drawn exactly when width or height is 0; otherwise the best-fit size, centring, stroke, fill, inverted outline and centred paste |
| Renderer.UnrotatedPasteCoversBox | visual-translator/src/renderer.py:64-74 | unrotated, a box with non-negative corner is pasted exactly at its corner |
| Renderer.UnrotatedPasteNearBox | visual-translator/src/renderer.py:64-74 | unrotated, any axis-aligned box is pasted within one pixel of its corner |
| Mask.Zeros | visual-translator/src/pipeline.py:39 | the mask starts as an image-sized raster of zeros |
| Mask.Fill | visual-translator/src/pipeline.py:83 | filling a region sets exactly its in-image pixels to 255 and leaves every other pixel as it was |
| Mask.BuildMask | visual-translator/src/pipeline.py:39-83 | the undilated mask is 0/255 and 255 exactly on the union of the filled regions |
| Mask.RowMax | visual-translator/src/pipeline.py:93-94 | the maximum over a row segment of the kernel, clipped to the image, is attained or 0 |
| Mask.WindowMax | visual-translator/src/pipeline.py:93-94 | the maximum over the 5x5 window clipped to the image bounds every pixel of it and is attained or 0 |
| Mask.DilateOnce | visual-translator/src/pipeline.py:93-94 | one 5x5 pass keeps the raster's size and byte range and sets each pixel to the largest value of its window clipped to the image |
| Mask.Dilate | visual-translator/src/pipeline.py:94 | any number of passes keeps the raster's size and byte range |
| Mask.DilateGrows | visual-translator/src/pipeline.py:93-94 | since the window holds its centre, no number of passes lowers any pixel |
| Mask.DilateOnceBinary | visual-translator/src/pipeline.py:93-94 | one dilation of a 0/255 mask is 0/255 and erases exactly the pixels within Chebyshev distance 2 of an erased pixel |
| Mask.NearAfterOnce | visual-translator/src/pipeline.py:93-94 | within 2 of the once-dilated mask implies within 4 of the original |
| Mask.NearBeforeOnce | visual-translator/src/pipeline.py:93-94 | within 4 of the original implies within 2 of the once-dilated mask |
| Mask.DilateTwiceBinary | visual-translator/src/pipeline.py:93-94 | two dilations erase exactly the pixels within Chebyshev distance 4 of an erased pixel |
| Mask.EraseMask | visual-translator/src/pipeline.py:39-94 | the final mask is 0/255, covers every filled pixel, and erases nothing farther than 4 pixels from one; with `Mask.EraseMaskReaches` it erases exactly the pixels within Chebyshev distance 4 of a filled one |
| Mask.EraseMaskCovers | visual-translator/src/pipeline.py:83-94 | two 5x5 dilations of the filled mask erase every filled pixel |
| Mask.EraseMaskNear | visual-translator/src/pipeline.py:83-94 | every pixel the two dilations erase lies within distance 4 of a filled pixel |
| Mask.EraseMaskReaches | visual-translator/src/pipeline.py:93-94 | every in-image pixel within Chebyshev distance 4 of a filled pixel is erased |
| Mask.DilationGrows | visual-translator/src/pipeline.py:93-94 | dilation never clears an erased pixel |
| Detector.TruncToInt | visual-translator/src/detector.py:73 | `astype(int32)` of a coordinate truncates toward zero |
| Detector.ToPoint | visual-translator/src/detector.py:73 | each coordinate of a corner is truncated toward zero |
| Detector.ToBox | visual-translator/src/detector.py:73 | the box keeps its four corners in order, each coordinate truncated toward zero |
| Detector.Zip3 | visual-translator/src/detector.py:67 | zipping stops at the shortest of the three lists and pairs equal indices |
| Detector.Keep | visual-translator/src/detector.py:68-70 | an entry is kept exactly when its score is at least 0.85, so a score of exactly 0.85 is kept |
| Detector.FilterEntries | visual-translator/src/detector.py:67-76 | every kept entry scores at least 0.85 and nothing is added |
| Detector.KeptIndices | visual-translator/src/detector.py:67-91 | the kept positions are increasing and are exactly the entries scoring at least 0.85 |
| Detector.KeptFromIncreasing | visual-translator/src/detector.py:67-91 | kept positions stay in input order |
| Detector.KeptFromComplete | visual-translator/src/detector.py:67-91 | no entry scoring at least 0.85 is dropped |
| Detector.FilterKeepsOrder | visual-translator/src/detector.py:67-91 | the result is the kept entries in input order, text and score unchanged, box truncated |
| Detector.Detect | visual-translator/src/detector.py:49-95 | an empty result gives no detections; an error happens exactly when the first page is a dictionary with `rec_texts` that lacks `rec_polys` or `rec_scores`, and names `rec_polys` when both are missing; every detection scores at least 0.85 |
| Detector.MissingKeyErrors | visual-translator/src/detector.py:62-65 | a dictionary page with `rec_texts` raises the missing key `rec_polys`, or `rec_scores` when only that one is missing |
| Detector.OnlyFirstPage | visual-translator/src/detector.py:56-59 | pages after the first never change the outcome |
| Detector.UnknownFormatIsEmpty | visual-translator/src/detector.py:62-93 | a page that is neither a dictionary with `rec_texts` nor a list gives no detections and no error |
| Detector.DictPageDetections | visual-translator/src/detector.py:62-76 | a complete dictionary page yields its confident entries, zipped to the shortest list, in order |
| Detector.ListPageDetections | visual-translator/src/detector.py:78-91 | a legacy page yields its confident lines in order |
| Translator.Strip | visual-translator/src/translator.py:55 | only whitespace is removed, only from the ends, and the result neither starts nor ends with whitespace |
| Translator.Remove | visual-translator/src/translator.py:55 | the character is gone, every other character is kept in order and count |
| Translator.SubsequenceTrans | visual-translator/src/translator.py:55 | chained deletions are a deletion |
| Translator.RemoveQuotes | visual-translator/src/translator.py:55 | no backtick, double or single quote remains; all other characters keep their order and count |
| Translator.Clean | visual-translator/src/translator.py:55 | the cleaned reply has no quotes, is a subsequence of the stripped reply, and keeps its other characters |
| Translator.CleanKeepsCleanText | visual-translator/src/translator.py:55 | a reply already without quotes or surrounding whitespace is returned unchanged |
| Translator.Translate | visual-translator/src/translator.py:30-67 | no model returns the input with no query; the fallback is queried exactly after a primary error naming NOT_FOUND or 404; the result is the input or a cleaned answer |
| Translator.UnrecoveredFailureKeepsText | visual-translator/src/translator.py:53-67 | any failure the fallback does not recover returns the input |
| Translator.FallbackRecovers | visual-translator/src/translator.py:59-64 | a "not found" failure answered by the fallback returns the fallback's cleaned answer |
| Translator.FallbackDecisionExamples | visual-translator/src/translator.py:59 | "404 ..." and "... NOT_FOUND" messages fall back, a quota message does not |
| Translator.AnalyzeAndTranslate | visual-translator/src/translator.py:69-90 | the translation equals plain `translate`, and the style is the fixed description |
| Pipeline.CropRect | visual-translator/src/pipeline.py:59-70 | starts are at least 0, stops at most the image size, and the padding is at most 5 on each side |
| Pipeline.SafeCropRect | visual-translator/src/pipeline.py:67-72 | corrected rectangle: the stops are never below the starts |
| Pipeline.SliceIndex | visual-translator/src/pipeline.py:72 | a slice bound is counted from the end when negative and then clamped to the axis |
| Pipeline.AxisSlice | visual-translator/src/pipeline.py:72 | a slice holds, in order, exactly the items whose index lies between the start and the stop once negative bounds are counted from the end |
| Pipeline.CropImage | visual-translator/src/pipeline.py:72 | the crop is rectangular, sized by the normalised bounds, and holds the image's pixels at its offset |
| Pipeline.TextColorAsWritten | visual-translator/src/pipeline.py:59-80 | the text colour as the code computes it is black or white |
| Pipeline.TextColorFor | visual-translator/src/pipeline.py:59-80 | the corrected text colour is black or white, and white for an empty crop |
| Pipeline.SafeCropEmptyIff | visual-translator/src/pipeline.py:59-73 | with the corrected rectangle the crop is empty exactly when the padded box misses the image |
| Pipeline.SliceBoundsRaised | visual-translator/src/pipeline.py:67-72 | raising a stop to its start leaves the slice unchanged unless the stop is a negative index counted from the end |
| Pipeline.CropsAgree | visual-translator/src/pipeline.py:59-80 | the code's crop and colour equal the corrected ones for every box with no stop counted from the end |
| Pipeline.OutsideBoxGetsWhiteText | visual-translator/src/pipeline.py:72-80 | with the corrected rectangle, a box whose padded rectangle misses the image gets background (0, 0, 0) and white text; as written, too, when no stop is counted from the end |
| Pipeline.BeyondFarEdgeGetsWhiteText | visual-translator/src/pipeline.py:59-80 | as written, a box more than 5 pixels beyond the right or bottom edge gets an empty crop and white text |
| Pipeline.InsideBoxRect | visual-translator/src/pipeline.py:59-70 | for a box inside the image the padded rectangle contains it, is at most 5 larger per side, and needs no correction |
| Pipeline.CropInside | visual-translator/src/pipeline.py:72 | cropping to a rectangle inside the image keeps exactly its pixels |
| Pipeline.CropKeepsInner | visual-translator/src/pipeline.py:72 | a crop keeps every pixel of any rectangle inside it |
| Pipeline.InsideBoxCrop | visual-translator/src/pipeline.py:59-79 | a box inside the image is coloured from a crop, taken with the code's own rectangle, that holds every pixel of the box's bounding rectangle at its offset |
| Pipeline.AboveImageCropIsNotEmpty | visual-translator/src/pipeline.py:67-72 | as written, a box whose padded bottom edge lies above row 0 but less than the image height above it, and whose padded columns overlap the image, crops the image's top rows instead of nothing |
| Pipeline.AboveImageColourCounterexample | visual-translator/src/pipeline.py:67-80 | on a white 20x20 image a box at rows -30..-20 gets black text as written and white text when corrected |
| Pipeline.Regions | visual-translator/src/pipeline.py:48-83 | one filled region per detection, in detection order, each the pixels filled for that detection's box |
| Pipeline.EraseMaskErasesFilled | visual-translator/src/pipeline.py:83-94 | every in-image pixel any box fills is erased in the dilated mask |
| Pipeline.Jobs | visual-translator/src/pipeline.py:59-124 | one job per detection, in order, with its box, original text, the translation of its own model call, and the text colour of the code's crop |
| Pipeline.JobsColourAwayFromTopLeft | visual-translator/src/pipeline.py:59-80 | a job whose box has no stop counted from the end carries the corrected colour, and white text when its padded box misses the image |
| Pipeline.Run | visual-translator/src/pipeline.py:31-94 | an unreadable image fails; otherwise the mask is exactly the union of the filled regions dilated twice by the 5x5 kernel, so it is 0/255 and, with `Mask.EraseMaskReaches`, erases exactly the pixels within 4 of a filled one, and the jobs are in detection order, coloured as the code colours them |
| Pipeline.RenderAll | visual-translator/src/pipeline.py:105-125 | one plan per job, in order, each exactly what `render` computes for it: skipped exactly for zero-area boxes, otherwise drawn in the job's colour with an inverted outline at the best-fit size, centred in the box, and pasted with its centre on the box centre |

## Left out

- Pixel drawing is not modelled. This covers glyph rasterisation, `Image.rotate` resampling, alpha compositing, and the second identical `paste` call. Only the numbers `render` computes are modelled.
- Renderer.Render: the rotation angle (`arctan2` of the first edge, in degrees) is folded into the `rotate` oracle, because floating-point trigonometry is out of scope.
- Renderer.Render: font loading, including the fallback to the default font when the font file fails, is folded into the `measure` oracle.
- ColorUtils.DominantColor: the channel mean is exact integer division. numpy sums the bytes in float64, which is exact for any crop under 2^45 pixels, so truncation gives the same byte.
- Box lengths use exact integer square roots. The source truncates a float64 square root, which can differ only for squared distances beyond 2^52.
- Detector.TruncToInt works on exact reals. float32 rounding of OCR coordinates and int32 overflow of coordinates are not modelled.
- ColorUtils.TextColor: the luminance test is exact, 299r + 587g + 114b > 128000 over integers. The source compares the float64 sum 0.299r + 0.587g + 0.114b with 128, and its rounding may put a sum within a rounding step of 128 on the other side. `TextColorBoundary`'s white text for grey 128 rests on the exact arithmetic.
- Detector.Keep: scores are exact reals compared with exactly 0.85. The source compares a float score with the float64 nearest to 0.85, so a score within one rounding step of 0.85 may be kept or dropped differently.
- Pipeline.OutsideBoxGetsWhiteText: white text for every box whose padded rectangle misses the image is promised only with the corrected rectangle. As written it holds only when no stop is counted from the end, because otherwise the source reads the image's top rows or left columns (see Findings).
- `cv2.fillPoly` rasterisation is a parameter: each box's filled pixel set.
- Only 4-point boxes are modelled. The source accepts polygons with any number of points, cast to int32.
- `cv2.imread` is a parameter. `Image.fromarray` and the BGR-to-RGB conversion of the restored image are left out, because pixels are not modelled. The OCR engine call is a parameter. Writing the output, the debug crops and the debug visualisation, and all `print` output are left out as I/O.
- The `FileNotFoundError` for a missing input path is left out, because file-system state is not modelled.
- The language models are parameters. The prompt text is not modelled, because it only shapes the oracle's reply.
- `Translator.__init__` is reduced to `hasModel`, because reading the API key from the environment is I/O.
- `inpainter.py` (background restoration) and `main.py` (command line) are not part of this model. The restored image only changes pixels, never the colours, boxes or texts.
- `analyze_and_translate` ignores its image crop in the source, so the model has no crop parameter.
- Pipeline.RenderAll: the pixels of the restored image that rendering draws on are not carried; only the per-region plans are.

## Findings

| source | as written | input that shows it | evidently intended | confidence | as-written member | corrected member |
|---|---|---|---|---|---|---|
| visual-translator/src/pipeline.py:67-72 | `y_max = min(h, y_max + 5)` is negative when the box's padded bottom edge lies above row 0 (likewise `x_max` for a box left of the image). When that stop is above minus the image height and the padded columns overlap the image, numpy counts it from the end, so the crop is the image's top rows rather than empty. A stop at or below minus the height still gives an empty crop | a 20x20 all-white image and the box (0,-30), (10,-30), (10,-20), (0,-20): the crop is rows 0-4, columns 0-14, so the text is black | a box outside the image gives an empty crop, so background (0, 0, 0) and white text | medium, not executed | Pipeline.AboveImageCropIsNotEmpty, Pipeline.AboveImageColourCounterexample | Pipeline.SafeCropRect, Pipeline.SafeCropEmptyIff, Pipeline.TextColorFor |
