/**
 * The colour analysis run on a captured camera frame: a brightness pass that
 * finds the mean weighted luminance of the frame, a normalisation factor that
 * brings that mean to 128, and a classification pass that scales and clamps
 * each pixel and counts "blue" (corrupted) and "pink" (good) pixels.
 *
 * The frame is the flat RGBA byte buffer a 2D canvas hands out: four bytes per
 * pixel, red, green, blue, alpha. The arithmetic of the original runs on IEEE
 * doubles; here it runs on `real`.
 */
module ColorAnalyzer {

  /** One byte of the canvas buffer. */
  type Byte = x: int | 0 <= x < 256

  datatype Option<T> = None | Some(value: T)

  /** The three colour channels of one pixel, possibly scaled. */
  datatype Rgb = Rgb(r: real, g: real, b: real)

  /** The counts the classification pass produces. */
  datatype Analysis = Analysis(blueCount: nat, pinkCount: nat, totalPixels: nat)

  // ---------------------------------------------------------------------------
  // Single pixels
  // ---------------------------------------------------------------------------

  /** Every channel lies in [0, 255]. */
  predicate InGamut(p: Rgb) {
    0.0 <= p.r <= 255.0 && 0.0 <= p.g <= 255.0 && 0.0 <= p.b <= 255.0
  }

  /** The standard grayscale weighting of the three channels. */
  function Brightness(p: Rgb): real {
    0.299 * p.r + 0.587 * p.g + 0.114 * p.b
  }

  /** The weights sum to one, so a gray pixel has its own level as brightness. */
  lemma GrayBrightness(v: real)
    ensures Brightness(Rgb(v, v, v)) == v
  {
  }

  /** `Math.min(255, Math.max(0, x))`. */
  function Clamp(x: real): (c: real)
    ensures 0.0 <= c <= 255.0
    ensures 0.0 <= x <= 255.0 ==> c == x
    ensures x < 0.0 ==> c == 0.0
    ensures x > 255.0 ==> c == 255.0
  {
    var atLeastZero := if 0.0 < x then x else 0.0;
    if atLeastZero < 255.0 then atLeastZero else 255.0
  }

  /** Every channel multiplied by the same factor, before clamping. */
  function Scale(p: Rgb, factor: real): Rgb {
    Rgb(p.r * factor, p.g * factor, p.b * factor)
  }

  /** A pixel as the classification pass sees it: scaled, then clamped. */
  function Adjust(p: Rgb, factor: real): (q: Rgb)
    ensures InGamut(q)
    ensures InGamut(Scale(p, factor)) ==> q == Scale(p, factor)
  {
    Rgb(Clamp(p.r * factor), Clamp(p.g * factor), Clamp(p.b * factor))
  }

  /** Scaling every channel scales the brightness by the same factor. */
  lemma BrightnessScales(p: Rgb, factor: real)
    ensures Brightness(Scale(p, factor)) == factor * Brightness(p)
  {
  }

  /** The "corrupted" test: blue above 128 and above the other two channels. */
  predicate IsBlue(p: Rgb) {
    p.b > 128.0 && p.b > p.r && p.b > p.g
  }

  /** The "good" test: red above 150 and dominant, green above 50, blue above 100. */
  predicate IsPink(p: Rgb) {
    p.r > 150.0 && p.g > 50.0 && p.b > 100.0 && p.r > p.g && p.r > p.b
  }

  /** Blue needs b > r and pink needs r > b, so no pixel is both. */
  lemma BlueExcludesPink(p: Rgb)
    ensures !(IsBlue(p) && IsPink(p))
  {
  }

  /** Each test has a floor: blue needs b above 128, pink needs r above 150. */
  lemma ThresholdFloors(p: Rgb)
    ensures p.b <= 128.0 ==> !IsBlue(p)
    ensures p.r <= 150.0 ==> !IsPink(p)
  {
  }

  // ---------------------------------------------------------------------------
  // The buffer
  // ---------------------------------------------------------------------------

  /** The colour channels of pixel `k`: offsets 4k, 4k+1 and 4k+2. The alpha byte at 4k+3 is not read. */
  function PixelAt(s: seq<Byte>, k: nat): Rgb
    requires 4 * k + 3 < |s|
  {
    Rgb(s[4 * k] as real, s[4 * k + 1] as real, s[4 * k + 2] as real)
  }

  /** The sum of the brightness of the first `k` pixels. */
  function SumBrightness(s: seq<Byte>, k: nat): real
    requires 4 * k <= |s|
  {
    if k == 0 then 0.0 else SumBrightness(s, k - 1) + Brightness(PixelAt(s, k - 1))
  }

  /** Channels are bytes, so the brightness sum is never negative. */
  lemma {:induction false} SumBrightnessNonNegative(s: seq<Byte>, k: nat)
    requires 4 * k <= |s|
    ensures SumBrightness(s, k) >= 0.0
  {
    if k > 0 {
      SumBrightnessNonNegative(s, k - 1);
    }
  }

  /** The sum of the brightness of the first `k` pixels, each scaled by `factor` and not clamped. */
  function ScaledSumBrightness(s: seq<Byte>, factor: real, k: nat): real
    requires 4 * k <= |s|
  {
    if k == 0 then 0.0 else ScaledSumBrightness(s, factor, k - 1) + Brightness(Scale(PixelAt(s, k - 1), factor))
  }

  /** `totalBrightness / totalPixels`; the original gives NaN for an empty frame, the model 0. */
  function AverageBrightness(s: seq<Byte>): (avg: real)
    requires |s| % 4 == 0
    ensures 0.0 <= avg
    ensures |s| / 4 > 0 ==> avg * (|s| / 4) as real == SumBrightness(s, |s| / 4)
  {
    var n := |s| / 4;
    SumBrightnessNonNegative(s, n);
    if n == 0 then 0.0 else Mean(SumBrightness(s, n), n)
  }

  /** `total / count`: the value that, counted `count` times, makes up `total`. */
  function Mean(total: real, count: nat): (m: real)
    requires count > 0
    ensures m * count as real == total
    ensures total >= 0.0 ==> m >= 0.0
  {
    total / count as real
  }

  /**
   * `128 / avgBrightness`. For a zero average the original gets Infinity; the
   * model uses 0, and BlackFrameUnclassified shows the counts are the same.
   */
  function AdjustmentFactor(avgBrightness: real): (factor: real)
    requires avgBrightness >= 0.0
    ensures factor >= 0.0
    ensures avgBrightness > 0.0 ==> factor * avgBrightness == 128.0
    ensures avgBrightness == 0.0 ==> factor == 0.0
  {
    if avgBrightness > 0.0 then 128.0 / avgBrightness else 0.0
  }

  /** The factor the frame `s` is normalised by. */
  function FrameFactor(s: seq<Byte>): real
    requires |s| % 4 == 0
  {
    AdjustmentFactor(AverageBrightness(s))
  }

  /** How many of the first `k` pixels, adjusted by `factor`, are blue. */
  function CountBlue(s: seq<Byte>, factor: real, k: nat): (count: nat)
    requires 4 * k <= |s|
    ensures count <= k
  {
    if k == 0 then 0
    else CountBlue(s, factor, k - 1) + (if IsBlue(Adjust(PixelAt(s, k - 1), factor)) then 1 else 0)
  }

  /** How many of the first `k` pixels, adjusted by `factor`, are pink. */
  function CountPink(s: seq<Byte>, factor: real, k: nat): (count: nat)
    requires 4 * k <= |s|
    ensures count <= k
  {
    if k == 0 then 0
    else CountPink(s, factor, k - 1) + (if IsPink(Adjust(PixelAt(s, k - 1), factor)) then 1 else 0)
  }

  /** No pixel is counted twice, so the two counts together never exceed the pixels scanned. */
  lemma {:induction false} CountsDisjoint(s: seq<Byte>, factor: real, k: nat)
    requires 4 * k <= |s|
    ensures CountBlue(s, factor, k) + CountPink(s, factor, k) <= k
  {
    if k > 0 {
      CountsDisjoint(s, factor, k - 1);
      BlueExcludesPink(Adjust(PixelAt(s, k - 1), factor));
    }
  }

  /** What the analysis of the frame `s` counts. */
  function Classify(s: seq<Byte>): (a: Analysis)
    requires |s| % 4 == 0
    ensures a.totalPixels == |s| / 4
    ensures a.blueCount + a.pinkCount <= a.totalPixels
  {
    var n := |s| / 4;
    var factor := FrameFactor(s);
    CountsDisjoint(s, factor, n);
    Analysis(CountBlue(s, factor, n), CountPink(s, factor, n), n)
  }

  /** `count / totalPixels * 100`, undefined (NaN in the original) for an empty frame. */
  function Percentage(count: nat, total: nat): (p: Option<real>)
    requires count <= total
    ensures p.Some? <==> total > 0
    ensures p.Some? ==> 0.0 <= p.value <= 100.0 && p.value * total as real == 100.0 * count as real
  {
    if total == 0 then None else Some(count as real / total as real * 100.0)
  }

  // ---------------------------------------------------------------------------
  // The analysis pass
  // ---------------------------------------------------------------------------

  /** The first loop: adds up the brightness of every pixel and counts the pixels. */
  method BrightnessPass(pixels: array<Byte>) returns (totalBrightness: real, totalPixels: nat)
    requires pixels.Length % 4 == 0
    ensures totalPixels == pixels.Length / 4
    ensures totalBrightness == SumBrightness(pixels[..], totalPixels)
  {
    ghost var s := pixels[..];
    ghost var n := pixels.Length / 4;
    assert pixels.Length == 4 * n;
    totalBrightness, totalPixels := 0.0, 0;
    var i := 0;
    while i < pixels.Length
      invariant i == 4 * totalPixels && totalPixels <= n
      invariant totalBrightness == SumBrightness(s, totalPixels)
    {
      var r := pixels[i] as real;
      var g := pixels[i + 1] as real;
      var b := pixels[i + 2] as real;
      totalBrightness := totalBrightness + Brightness(Rgb(r, g, b));
      totalPixels := totalPixels + 1;
      i := i + 4;
    }
  }

  /** The second loop: adjusts every pixel by `factor` and counts the blue and the pink ones. */
  method ClassificationPass(pixels: array<Byte>, factor: real) returns (blueCount: nat, pinkCount: nat)
    requires pixels.Length % 4 == 0
    ensures blueCount == CountBlue(pixels[..], factor, pixels.Length / 4)
    ensures pinkCount == CountPink(pixels[..], factor, pixels.Length / 4)
    ensures blueCount + pinkCount <= pixels.Length / 4
  {
    ghost var s := pixels[..];
    ghost var n := pixels.Length / 4;
    assert pixels.Length == 4 * n;
    blueCount, pinkCount := 0, 0;
    var i := 0;
    ghost var k := 0;
    while i < pixels.Length
      invariant i == 4 * k && k <= n
      invariant blueCount == CountBlue(s, factor, k)
      invariant pinkCount == CountPink(s, factor, k)
    {
      var pixel := Rgb(pixels[i] as real, pixels[i + 1] as real, pixels[i + 2] as real);
      assert pixel == PixelAt(s, k);
      var adjusted := Adjust(pixel, factor);
      if IsBlue(adjusted) {
        blueCount := blueCount + 1;
      }
      if IsPink(adjusted) {
        pinkCount := pinkCount + 1;
      }
      i, k := i + 4, k + 1;
    }
    CountsDisjoint(s, factor, n);
  }

  /**
   * The analysis of one frame: brightness pass, normalisation factor,
   * classification pass, percentages. The buffer is only read: no method here
   * has a modifies clause.
   */
  method AnalyzeColors(pixels: array<Byte>)
    returns (blueCount: nat, pinkCount: nat, totalPixels: nat,
             bluePercentage: Option<real>, pinkPercentage: Option<real>)
    requires pixels.Length % 4 == 0
    ensures totalPixels == pixels.Length / 4
    ensures Analysis(blueCount, pinkCount, totalPixels) == Classify(pixels[..])
    ensures blueCount + pinkCount <= totalPixels
    ensures bluePercentage == Percentage(blueCount, totalPixels)
    ensures pinkPercentage == Percentage(pinkCount, totalPixels)
  {
    var totalBrightness;
    totalBrightness, totalPixels := BrightnessPass(pixels);
    SumBrightnessNonNegative(pixels[..], totalPixels);
    var avgBrightness := if totalPixels == 0 then 0.0 else Mean(totalBrightness, totalPixels);
    var factor := AdjustmentFactor(avgBrightness);
    blueCount, pinkCount := ClassificationPass(pixels, factor);
    bluePercentage := Percentage(blueCount, totalPixels);
    pinkPercentage := Percentage(pinkCount, totalPixels);
  }

  // ---------------------------------------------------------------------------
  // Properties of the analysis
  // ---------------------------------------------------------------------------

  /** Scaling before clamping multiplies the brightness sum by the factor. */
  lemma {:induction false} ScaledSumIsScaled(s: seq<Byte>, factor: real, k: nat)
    requires 4 * k <= |s|
    ensures ScaledSumBrightness(s, factor, k) == factor * SumBrightness(s, k)
  {
    if k > 0 {
      var p := PixelAt(s, k - 1);
      ScaledSumIsScaled(s, factor, k - 1);
      BrightnessScales(p, factor);
      Distribute(factor, SumBrightness(s, k - 1), Brightness(p));
    }
  }

  /** Multiplication distributes over a sum of two terms. */
  lemma Distribute(f: real, a: real, b: real)
    ensures f * (a + b) == f * a + f * b
  {
  }

  /** Before clamping, the normalised frame has mean brightness exactly 128. */
  lemma NormalisedMeanIs128(s: seq<Byte>)
    requires |s| % 4 == 0
    requires AverageBrightness(s) > 0.0
    ensures |s| / 4 > 0
    ensures Mean(ScaledSumBrightness(s, FrameFactor(s), |s| / 4), |s| / 4) == 128.0
  {
    var n := |s| / 4;
    var factor := FrameFactor(s);
    ScaledSumIsScaled(s, factor, n);
    MeanOfScaled(factor, AverageBrightness(s), SumBrightness(s, n), ScaledSumBrightness(s, factor, n), n);
  }

  /** The arithmetic behind NormalisedMeanIs128: scaling a total whose mean is `avg` by `128 / avg`. */
  lemma MeanOfScaled(factor: real, avg: real, total: real, scaled: real, count: nat)
    requires count > 0
    requires avg * count as real == total && scaled == factor * total && factor * avg == 128.0
    ensures Mean(scaled, count) == 128.0
  {
    var m, c := Mean(scaled, count), count as real;
    assert scaled == (factor * avg) * c by {
      assert factor * (avg * c) == (factor * avg) * c;
    }
    assert (m - 128.0) * c == 0.0;
  }

  /** A zero brightness sum means every pixel is black in all three colour channels. */
  lemma {:induction false} ZeroSumMeansBlack(s: seq<Byte>, k: nat, j: nat)
    requires 4 * k <= |s|
    requires SumBrightness(s, k) == 0.0
    requires j < k
    ensures PixelAt(s, j) == Rgb(0.0, 0.0, 0.0)
  {
    var before := SumBrightness(s, k - 1);
    var p := PixelAt(s, k - 1);
    SumBrightnessNonNegative(s, k - 1);
    assert before + Brightness(p) == 0.0;
    if j < k - 1 {
      assert before == 0.0;
      ZeroSumMeansBlack(s, k - 1, j);
    } else {
      assert Brightness(p) == 0.0;
    }
  }

  /**
   * A frame whose brightness sum is zero has no blue and no pink pixel, whatever
   * the factor; so the original's NaN channels and the model's zero factor agree.
   */
  lemma {:induction false} BlackFrameUnclassified(s: seq<Byte>, factor: real, k: nat)
    requires 4 * k <= |s|
    requires SumBrightness(s, k) == 0.0
    ensures CountBlue(s, factor, k) == 0 && CountPink(s, factor, k) == 0
  {
    if k > 0 {
      ZeroSumMeansBlack(s, k, k - 1);
      BlackFrameUnclassified(s, factor, k - 1);
    }
  }

  /** Two buffers that differ at most in their alpha bytes. */
  predicate SameColours(s: seq<Byte>, t: seq<Byte>) {
    |s| == |t| && forall j :: 0 <= j < |s| && j % 4 != 3 ==> s[j] == t[j]
  }

  /** Buffers that differ only in alpha bytes agree on every pixel's colour channels. */
  lemma SamePixel(s: seq<Byte>, t: seq<Byte>, k: nat)
    requires SameColours(s, t)
    requires 4 * k + 3 < |s|
    ensures PixelAt(s, k) == PixelAt(t, k)
  {
    assert (4 * k) % 4 == 0 && (4 * k + 1) % 4 == 1 && (4 * k + 2) % 4 == 2;
  }

  /** Buffers whose first `k` pixels agree have the same brightness prefix sum and counts there. */
  lemma {:induction false} SamePixelsSameSums(s: seq<Byte>, t: seq<Byte>, factor: real, k: nat)
    requires 4 * k <= |s| && 4 * k <= |t|
    requires forall j :: 0 <= j < k ==> PixelAt(s, j) == PixelAt(t, j)
    ensures SumBrightness(s, k) == SumBrightness(t, k)
    ensures CountBlue(s, factor, k) == CountBlue(t, factor, k)
    ensures CountPink(s, factor, k) == CountPink(t, factor, k)
  {
    if k > 0 {
      SamePixelsSameSums(s, t, factor, k - 1);
      assert PixelAt(s, k - 1) == PixelAt(t, k - 1);
    }
  }

  /** Buffers that differ only in alpha bytes agree on every brightness prefix sum and every count. */
  lemma SameColoursSameSums(s: seq<Byte>, t: seq<Byte>, factor: real, k: nat)
    requires SameColours(s, t)
    requires 4 * k <= |s|
    ensures SumBrightness(s, k) == SumBrightness(t, k)
    ensures CountBlue(s, factor, k) == CountBlue(t, factor, k)
    ensures CountPink(s, factor, k) == CountPink(t, factor, k)
  {
    forall j | 0 <= j < k
      ensures PixelAt(s, j) == PixelAt(t, j)
    {
      SamePixel(s, t, j);
    }
    SamePixelsSameSums(s, t, factor, k);
  }

  /** The alpha bytes never affect the analysis. */
  lemma AlphaIgnored(s: seq<Byte>, t: seq<Byte>)
    requires |s| % 4 == 0
    requires SameColours(s, t)
    ensures Classify(s) == Classify(t)
  {
    var n := |s| / 4;
    SameColoursSameSums(s, t, 0.0, n);
    SameColoursSameSums(s, t, FrameFactor(s), n);
  }

  /** A frame of one pure blue pixel is all blue: normalisation lifts blue past 255. */
  lemma PureBluePixelIsBlue()
    ensures Classify([0, 0, 255, 255]) == Analysis(1, 0, 1)
  {
    var s: seq<Byte> := [0, 0, 255, 255];
    assert PixelAt(s, 0) == Rgb(0.0, 0.0, 255.0);
  }

  /** A frame of one hot pink pixel (255, 105, 180) is all pink. */
  lemma HotPinkPixelIsPink()
    ensures Classify([255, 105, 180, 255]) == Analysis(0, 1, 1)
  {
    var s: seq<Byte> := [255, 105, 180, 255];
    assert PixelAt(s, 0) == Rgb(255.0, 105.0, 180.0);
  }

  /** One hot pink pixel among three mid-gray ones: a quarter of the frame is pink. */
  lemma HotPinkQuarter()
    ensures Classify([255, 105, 180, 255, 128, 128, 128, 255, 128, 128, 128, 255, 128, 128, 128, 255])
         == Analysis(0, 1, 4)
    ensures Percentage(1, 4) == Some(25.0)
  {
    var s: seq<Byte> := [255, 105, 180, 255, 128, 128, 128, 255, 128, 128, 128, 255, 128, 128, 128, 255];
    assert PixelAt(s, 0) == Rgb(255.0, 105.0, 180.0);
    assert PixelAt(s, 1) == PixelAt(s, 2) == PixelAt(s, 3) == Rgb(128.0, 128.0, 128.0);
    assert SumBrightness(s, 4) == 542.4;
    assert AverageBrightness(s) == 135.6;
    var factor := FrameFactor(s);
    assert factor == 128.0 / 135.6;
    var pink := Adjust(PixelAt(s, 0), factor);
    var gray := Adjust(PixelAt(s, 1), factor);
    assert IsPink(pink) && !IsBlue(pink);
    assert !IsPink(gray) && !IsBlue(gray);
  }

  /** Every colour byte of the buffer is `v`: a uniformly gray frame. */
  predicate UniformGray(s: seq<Byte>, v: Byte) {
    forall j :: 0 <= j < |s| && j % 4 != 3 ==> s[j] == v
  }

  /** Every pixel of a uniformly gray frame is (v, v, v). */
  lemma GrayPixel(s: seq<Byte>, v: Byte, k: nat)
    requires UniformGray(s, v)
    requires 4 * k + 3 < |s|
    ensures PixelAt(s, k) == Rgb(v as real, v as real, v as real)
  {
    assert (4 * k) % 4 == 0 && (4 * k + 1) % 4 == 1 && (4 * k + 2) % 4 == 2;
  }

  /** Each pixel of a uniformly gray frame adds its level `v` to the brightness sum. */
  lemma GraySumStep(s: seq<Byte>, v: Byte, k: nat)
    requires UniformGray(s, v)
    requires 0 < k && 4 * k <= |s|
    ensures SumBrightness(s, k) == SumBrightness(s, k - 1) + v as real
  {
    GrayPixel(s, v, k - 1);
    GrayBrightness(v as real);
  }

  /** Adding one more `w` to `k - 1` of them gives `k` of them. */
  lemma OneMoreTerm(k: nat, w: real)
    requires k > 0
    ensures (k - 1) as real * w + w == k as real * w
  {
  }

  /** The first `k` pixels of a frame of gray level `v` have brightness sum `k * v`. */
  lemma {:induction false} GraySum(s: seq<Byte>, v: Byte, k: nat)
    requires UniformGray(s, v)
    requires 4 * k <= |s|
    ensures SumBrightness(s, k) == k as real * v as real
  {
    if k > 0 {
      GraySum(s, v, k - 1);
      GraySumStep(s, v, k);
      OneMoreTerm(k, v as real);
    }
  }

  /** A gray pixel whose level the factor brings to 128 is adjusted to (128, 128, 128). */
  lemma GrayAdjustsToMid(v: real, factor: real)
    requires factor * v == 128.0
    ensures Adjust(Rgb(v, v, v), factor) == Rgb(128.0, 128.0, 128.0)
  {
    assert v * factor == 128.0;
  }

  /** A pixel of a uniformly gray frame that is adjusted to mid-gray adds to neither count. */
  lemma GrayCountStep(s: seq<Byte>, v: Byte, factor: real, k: nat)
    requires UniformGray(s, v)
    requires 0 < k && 4 * k <= |s|
    requires Adjust(Rgb(v as real, v as real, v as real), factor) == Rgb(128.0, 128.0, 128.0)
    ensures CountBlue(s, factor, k) == CountBlue(s, factor, k - 1)
    ensures CountPink(s, factor, k) == CountPink(s, factor, k - 1)
  {
    GrayPixel(s, v, k - 1);
  }

  /** A gray frame that `factor` adjusts to mid-gray has no blue and no pink pixel. */
  lemma {:induction false} GrayCountsZero(s: seq<Byte>, v: Byte, factor: real, k: nat)
    requires UniformGray(s, v)
    requires 4 * k <= |s|
    requires Adjust(Rgb(v as real, v as real, v as real), factor) == Rgb(128.0, 128.0, 128.0)
    ensures CountBlue(s, factor, k) == 0 && CountPink(s, factor, k) == 0
  {
    if k > 0 {
      GrayCountsZero(s, v, factor, k - 1);
      GrayCountStep(s, v, factor, k);
    }
  }

  /** A mean is unique: two values that each give `total` when taken `count` times are equal. */
  lemma MeanUnique(a: real, b: real, count: real, total: real)
    requires count > 0.0
    requires a * count == total && count * b == total
    ensures a == b
  {
    assert (a - b) * count == 0.0;
  }

  /** The mean of `count` copies of `w` is `w`. */
  lemma MeanOfRepeated(count: nat, w: real)
    requires count > 0
    ensures Mean(count as real * w, count) == w
  {
    MeanUnique(Mean(count as real * w, count), w, count as real, count as real * w);
  }

  /** A frame whose brightness total is `w` per pixel has average brightness `w`. */
  lemma AverageOfEvenSum(s: seq<Byte>, w: real)
    requires |s| % 4 == 0 && |s| > 0
    requires SumBrightness(s, |s| / 4) == (|s| / 4) as real * w
    ensures AverageBrightness(s) == w
  {
    var n := |s| / 4;
    assert n > 0;
    MeanOfRepeated(n, w);
  }

  /** The average brightness of a uniformly gray frame is its gray level. */
  lemma GrayAverage(s: seq<Byte>, v: Byte)
    requires |s| % 4 == 0 && |s| > 0
    requires UniformGray(s, v)
    ensures AverageBrightness(s) == v as real
  {
    GraySum(s, v, |s| / 4);
    AverageOfEvenSum(s, v as real);
  }

  /** The factor of a uniformly gray, non-black frame brings its level to 128. */
  lemma GrayFactor(s: seq<Byte>, v: Byte)
    requires |s| % 4 == 0 && |s| > 0
    requires UniformGray(s, v) && v > 0
    ensures FrameFactor(s) * v as real == 128.0
  {
    GrayAverage(s, v);
  }

  /**
   * A uniformly gray, non-black frame has average brightness equal to its gray
   * level, is scaled to mid-gray 128, and counts no blue and no pink pixel.
   */
  lemma GrayFrameUnclassified(s: seq<Byte>, v: Byte)
    requires |s| % 4 == 0 && |s| > 0
    requires UniformGray(s, v) && v > 0
    ensures AverageBrightness(s) == v as real
    ensures FrameFactor(s) * v as real == 128.0
    ensures Classify(s) == Analysis(0, 0, |s| / 4)
  {
    GrayAverage(s, v);
    GrayFactor(s, v);
    GrayAdjustsToMid(v as real, FrameFactor(s));
    GrayCountsZero(s, v, FrameFactor(s), |s| / 4);
  }
}
