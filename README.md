# Color Analyzer: the pixel classification pass

Color Analyzer is a small web app. It takes a still frame from the device camera, draws it onto a
2D canvas, and reports two shares of the frame's pixels: "Corrupted" (blue-dominant) and "Good"
(pink-dominant). This project models the analysis that runs once the frame is decoded
(`analyzeColors`, the body of its `onload` handler). It proves what that analysis computes.

The analysis reads the canvas's flat RGBA buffer, four bytes per pixel, in two passes:

1. **Brightness pass.** Adds up `0.299 r + 0.587 g + 0.114 b` over all pixels and counts the pixels.
2. **Normalisation factor.** `128 / avgBrightness`, meant to bring the mean brightness to 128.
3. **Classification pass.** Multiplies each pixel's red, green and blue by the factor and clamps
   each to [0, 255]. It then counts the pixel as blue if `b > 128`, `b > r` and `b > g`. It counts
   it as pink if `r > 150`, `g > 50`, `b > 100`, `r > g` and `r > b`.
4. **Percentages.** `count / totalPixels * 100` for each colour.

The model is one module, `ColorAnalyzer`, in `color_analyzer.dfy`:

- The buffer is an `array<Byte>` (a byte is an `int` in [0, 255]). The three methods that read it
  have no `modifies` clause, so the analysis provably never writes to the buffer.
- `BrightnessPass` and `ClassificationPass` are the two loops. Each steps `i` by 4, as the original
  does. `AnalyzeColors` runs them, computes the factor between them, and then the percentages.
- Each method is proved against specification functions on `seq<Byte>`. `SumBrightness`,
  `CountBlue` and `CountPink` each cover the first `k` pixels, and `Classify` covers a whole frame.
- Lemmas about these functions state what the analysis promises: the counts are disjoint and
  bounded, the clamped channels stay in range, and before clamping the normalised mean brightness
  is exactly 128. They also show that alpha bytes never matter, that an all-black frame
  classifies nothing, and that a uniformly gray frame is scaled to mid-gray 128 and classifies
  nothing either.

The original does its arithmetic on IEEE doubles; the model uses `real`. The two colour tests
cannot overlap, because blue needs `b > r` and pink needs `r > b`; the model follows the code
(`BlueExcludesPink`, `CountsDisjoint`).

## Model

| member | source | states |
|---|---|---|
| `ColorAnalyzer.Brightness` | src/App.jsx:44 | definition; no contract: the weighted sum `0.299 r + 0.587 g + 0.114 b` |
| `ColorAnalyzer.IsBlue` | src/App.jsx:65 | definition; no contract: the blue test `b > 128 && b > r && b > g` |
| `ColorAnalyzer.IsPink` | src/App.jsx:69 | definition; no contract: the pink test `r > 150 && g > 50 && b > 100 && r > g && r > b` |
| `ColorAnalyzer.PixelAt` | src/App.jsx:40-42 | definition; no contract: pixel k is bytes 4k, 4k + 1 and 4k + 2 of the buffer; byte 4k + 3 (alpha) is skipped |
| `ColorAnalyzer.SumBrightness` | src/App.jsx:39-47 | definition; no contract: the brightness total of the first k pixels, accumulated in buffer order |
| `ColorAnalyzer.GrayBrightness` | src/App.jsx:44 | the grayscale weights sum to one: a gray pixel (v, v, v) has brightness v |
| `ColorAnalyzer.Clamp` | src/App.jsx:60-62 | the clamped value lies in [0, 255]; it is the input when the input is already in range, 0 below the range and 255 above it |
| `ColorAnalyzer.Adjust` | src/App.jsx:55-62 | every adjusted channel lies in [0, 255]; when scaling alone stays in range, clamping changes nothing |
| `ColorAnalyzer.BrightnessScales` | src/App.jsx:55-57 | multiplying R, G and B by the factor multiplies the pixel's brightness by the same factor |
| `ColorAnalyzer.BlueExcludesPink` | src/App.jsx:65-71 | no adjusted pixel passes both the blue and the pink test |
| `ColorAnalyzer.ThresholdFloors` | src/App.jsx:65-69 | a pixel whose adjusted blue is at most 128 is never blue; one whose adjusted red is at most 150 is never pink |
| `ColorAnalyzer.SumBrightnessNonNegative` | src/App.jsx:39-47 | the brightness total of any prefix of the frame is never negative |
| `ColorAnalyzer.Mean` | src/App.jsx:49 | the mean, taken `count` times, gives back the total; the mean of a non-negative total is non-negative |
| `ColorAnalyzer.AverageBrightness` | src/App.jsx:49 | the average brightness is non-negative, and for a non-empty frame the average times the pixel count is the brightness total |
| `ColorAnalyzer.AdjustmentFactor` | src/App.jsx:52 | the factor is non-negative; for a positive average, factor times average is exactly 128; for a zero average it is 0 |
| `ColorAnalyzer.CountBlue` | src/App.jsx:54-67 | the number of blue pixels among the first k is at most k |
| `ColorAnalyzer.CountPink` | src/App.jsx:54-72 | the number of pink pixels among the first k is at most k |
| `ColorAnalyzer.CountsDisjoint` | src/App.jsx:54-72 | among the first k pixels, blue count plus pink count is at most k |
| `ColorAnalyzer.Classify` | src/App.jsx:30-72 | the analysis of a frame counts one pixel per 4-byte group, and its blue and pink counts together do not exceed that number |
| `ColorAnalyzer.Percentage` | src/App.jsx:74-75 | a share exists exactly when the frame has pixels; it lies in [0, 100] and times the pixel count equals 100 times the count |
| `ColorAnalyzer.BrightnessPass` | src/App.jsx:39-47 | after the first loop, `totalPixels` is the buffer length divided by 4 and `totalBrightness` is the brightness sum of all pixels |
| `ColorAnalyzer.ClassificationPass` | src/App.jsx:54-72 | after the second loop, the counts are the numbers of adjusted pixels passing each test, and they add up to at most the pixel count |
| `ColorAnalyzer.AnalyzeColors` | src/App.jsx:30-75 | the whole handler: counts equal `Classify` of the buffer, are disjoint and bounded by `totalPixels`, and the percentages are `Percentage` of them; the buffer is not written |
| `ColorAnalyzer.ScaledSumIsScaled` | src/App.jsx:44-57 | before clamping, the brightness total of the scaled frame is the factor times the original total |
| `ColorAnalyzer.NormalisedMeanIs128` | src/App.jsx:44-57 | for a frame with positive average brightness, scaling every pixel by the frame's factor makes the mean brightness exactly 128 (before clamping) |
| `ColorAnalyzer.ZeroSumMeansBlack` | src/App.jsx:39-47 | a zero brightness total means every pixel has red, green and blue all 0 |
| `ColorAnalyzer.BlackFrameUnclassified` | src/App.jsx:49-72 | a frame with zero brightness total has no blue and no pink pixel, whatever the factor |
| `ColorAnalyzer.SamePixel` | src/App.jsx:40-42 | two buffers that differ only in alpha bytes give the same colour channels for every pixel |
| `ColorAnalyzer.SamePixelsSameSums` | src/App.jsx:39-72 | two buffers whose first k pixels have the same colour channels have the same brightness total and the same blue and pink counts over those pixels, for any factor |
| `ColorAnalyzer.SameColoursSameSums` | src/App.jsx:39-72 | two buffers that differ only in alpha bytes have the same brightness totals and the same blue and pink counts |
| `ColorAnalyzer.AlphaIgnored` | src/App.jsx:55-57 | the alpha byte never affects the analysis: buffers differing only in alpha classify alike |
| `ColorAnalyzer.MeanOfRepeated` | src/App.jsx:49 | the mean of `count` copies of a value is that value |
| `ColorAnalyzer.AverageOfEvenSum` | src/App.jsx:49 | a non-empty frame whose brightness total is w per pixel has average brightness w |
| `ColorAnalyzer.GraySum` | src/App.jsx:39-47 | in a frame whose colour bytes all equal v, the first k pixels have brightness total k times v |
| `ColorAnalyzer.GrayAverage` | src/App.jsx:39-49 | a non-empty frame whose colour bytes all equal v has average brightness v |
| `ColorAnalyzer.GrayFactor` | src/App.jsx:49-52 | for such a frame with v > 0, the factor times v is exactly 128 |
| `ColorAnalyzer.GrayAdjustsToMid` | src/App.jsx:55-62 | a gray pixel (v, v, v) whose level the factor brings to 128 is adjusted to (128, 128, 128) |
| `ColorAnalyzer.GrayCountsZero` | src/App.jsx:54-72 | in a gray frame that the factor adjusts to mid-gray, no pixel is blue or pink |
| `ColorAnalyzer.GrayFrameUnclassified` | src/App.jsx:39-72 | a uniformly gray, non-black frame has average equal to its level, a factor that brings that level to 128, and no blue and no pink pixel |
| `ColorAnalyzer.PureBluePixelIsBlue` | src/App.jsx:65-67 | a one-pixel frame of pure blue (0, 0, 255) counts as one blue pixel and no pink one |
| `ColorAnalyzer.HotPinkPixelIsPink` | src/App.jsx:69-71 | a one-pixel frame of hot pink (255, 105, 180) counts as one pink pixel and no blue one |
| `ColorAnalyzer.HotPinkQuarter` | src/App.jsx:65-75 | one hot pink pixel among three mid-gray ones gives one pink, no blue, and a pink share of exactly 25 |

## Left out

- Camera capture (`react-webcam`, `getScreenshot`, the rear-camera constraint): device I/O in a foreign library.
- Image decoding, the canvas, `drawImage` and `getImageData`: browser APIs. The model starts from the byte buffer they produce.
- React state and rendering (`useState`, `setResult`, `setImageSrc`, the markup and the Retake button): user interface.
- IEEE-754 rounding: all arithmetic is on `real`. A pixel whose double-precision value lands on the other side of a threshold than its exact value is classified as the exact value says.
- `toFixed(2)`: the float-to-string rounding of the percentages. The model keeps the exact share in [0, 100].
- AverageBrightness: gives 0 for an empty frame, where the original computes 0 / 0 = NaN. No pixel is classified either way, because the second loop does not run.
- AdjustmentFactor: gives 0 for a zero average, where the original gets Infinity. Each channel then becomes 0 × Infinity = NaN, and every comparison with NaN is false, so the original counts nothing. `BlackFrameUnclassified` proves the model counts nothing too, for any factor.
- Percentage: gives `None` for an empty frame, where the original shows "NaN".
- A buffer length that is not a multiple of 4 is excluded by a precondition, because `getImageData` always returns four bytes per pixel.
