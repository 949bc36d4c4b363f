/**
 * The brightness corrector of the screen driver. The grayscale conversion and
 * the pixel arithmetic of the imaging library are abstracted away: what remains
 * is the luminance histogram (one pixel count per grey level, 256 levels for an
 * 8-bit grayscale image), its mean, and the decision taken from that mean.
 * Brightness values and factors are exact reals here.
 */
module Brightness {

  /** The number of buckets of an 8-bit grayscale histogram. */
  const Buckets := 256

  /** The result of a computation that may divide by zero. */
  datatype Result<T> = Ok(value: T) | ZeroDivisionError

  /** `sum(histogram)`: the number of pixels counted. */
  function Pixels(h: seq<nat>): nat
  {
    if h == [] then 0 else Pixels(h[..|h| - 1]) + h[|h| - 1]
  }

  /** `sum(index * value for index, value in enumerate(histogram))`. */
  function Weighted(h: seq<nat>): nat
  {
    if h == [] then 0 else Weighted(h[..|h| - 1]) + (|h| - 1) * h[|h| - 1]
  }

  /** A histogram counts no pixel exactly when every bucket is zero. */
  lemma {:induction false} PixelsZeroIff(h: seq<nat>)
    ensures Pixels(h) == 0 <==> forall i | 0 <= i < |h| :: h[i] == 0
  {
    if h != [] {
      var init := h[..|h| - 1];
      PixelsZeroIff(init);
      assert forall i | 0 <= i < |init| :: init[i] == h[i];
    }
  }

  /** Every grey level is at most |h| - 1, so the weighted sum is bounded by it. */
  lemma {:induction false} WeightedBound(h: seq<nat>)
    requires h != []
    ensures Weighted(h) <= (|h| - 1) * Pixels(h)
  {
    var n := |h|;
    var init := h[..n - 1];
    if init != [] {
      WeightedBound(init);
      assert (n - 2) * Pixels(init) <= (n - 1) * Pixels(init);
      assert (n - 1) * Pixels(h) == (n - 1) * Pixels(init) + (n - 1) * h[n - 1];
    }
  }

  /** A histogram whose pixels all sit in bucket `k` has weighted sum `k` per pixel. */
  lemma {:induction false} SingleBucketSums(h: seq<nat>, k: nat)
    requires k < |h|
    requires forall i | 0 <= i < |h| && i != k :: h[i] == 0
    ensures Pixels(h) == h[k] && Weighted(h) == k * h[k]
  {
    var n := |h|;
    var init := h[..n - 1];
    if k < n - 1 {
      SingleBucketSums(init, k);
    } else {
      PixelsZeroIff(init);
      ZeroWeighted(init);
    }
  }

  /** An all-zero histogram has weighted sum zero. */
  lemma {:induction false} ZeroWeighted(h: seq<nat>)
    requires forall i | 0 <= i < |h| :: h[i] == 0
    ensures Weighted(h) == 0
  {
    if h != [] {
      ZeroWeighted(h[..|h| - 1]);
    }
  }

  /**
   * The mean luminance `Σ i·h[i] / Σ h[i]` (Python's true division). An image
   * with no pixels makes the source divide by zero; otherwise the mean of an
   * 8-bit histogram is a grey level between 0 and 255.
   */
  function Mean(h: seq<nat>): (r: Result<real>)
    ensures r.ZeroDivisionError? <==> forall i | 0 <= i < |h| :: h[i] == 0
    ensures r.Ok? ==> 0.0 <= r.value <= (|h| - 1) as real
    ensures r.Ok? && |h| == Buckets ==> r.value <= 255.0
  {
    PixelsZeroIff(h);
    if Pixels(h) == 0 then ZeroDivisionError
    else
      WeightedBound(h);
      MeanBound(Weighted(h), Pixels(h), |h| - 1);
      Ok(Weighted(h) as real / Pixels(h) as real)
  }

  /** w <= b·p with p > 0 gives w / p <= b. */
  lemma MeanBound(w: nat, p: nat, b: nat)
    requires p > 0 && w <= b * p
    ensures w as real / p as real <= b as real
  {
  }

  /** A histogram whose pixels all sit in one bucket has that bucket as its mean. */
  lemma SingleBucketMean(h: seq<nat>, k: nat)
    requires k < |h| && h[k] > 0
    requires forall i | 0 <= i < |h| && i != k :: h[i] == 0
    ensures Mean(h) == Ok(k as real)
  {
    SingleBucketSums(h, k);
    var p := h[k] as real;
    assert (k * h[k]) as real == k as real * p;
    assert (k as real * p) / p == k as real;
  }

  /**
   * `adjust_brightness_factor`: three bands of mean brightness. Very dark
   * images (at most 100) get the configured factor plus 0.2, the band strictly
   * between 100 and 105 keeps it, and anything from 105 up gets it minus 0.2.
   */
  function AdjustBrightnessFactor(factor: real, brightness: real): (r: real)
    ensures brightness <= 100.0 ==> r == factor + 0.2
    ensures 100.0 < brightness < 105.0 ==> r == factor
    ensures brightness >= 105.0 ==> r == factor - 0.2
    ensures factor - 0.2 <= r <= factor + 0.2
  {
    if brightness <= 100.0 then factor + 0.2
    else if 100.0 < brightness < 105.0 then factor
    else factor - 0.2
  }

  /** The darker the image, the larger the adjusted factor: the bands never invert. */
  lemma AdjustAntitone(factor: real, b1: real, b2: real)
    requires b1 <= b2
    ensures AdjustBrightnessFactor(factor, b1) >= AdjustBrightnessFactor(factor, b2)
  {
  }

  /** Three worked examples: 110 with 1.0 gives 0.8, 102 with 0.8 keeps 0.8, 0 with 1.0 gives 1.2. */
  lemma AdjustExamples()
    ensures AdjustBrightnessFactor(1.0, 110.0) == 0.8
    ensures AdjustBrightnessFactor(0.8, 102.0) == 0.8
    ensures AdjustBrightnessFactor(1.0, 0.0) == 1.2
  {
  }

  /**
   * The outcome of `enhance_brightness`: the image is returned unchanged, or
   * it is enhanced with the factor `applied`, after `logged` was written to
   * the log as the increase.
   */
  datatype Decision = Unchanged | Enhanced(applied: real, logged: real)

  /**
   * `enhance_brightness` as written: below the darkness threshold (strictly)
   * the adjusted factor is computed and logged, but the image is enhanced with
   * the configured factor. An image with no pixels divides by zero.
   */
  function EnhanceBrightness(h: seq<nat>, threshold: real, factor: real): (r: Result<Decision>)
    ensures r.ZeroDivisionError? <==> Mean(h).ZeroDivisionError?
    ensures r.Ok? ==> (r.value.Unchanged? <==> Mean(h).value >= threshold)
    ensures r.Ok? && r.value.Enhanced? ==>
              r.value.applied == factor
              && r.value.logged == AdjustBrightnessFactor(factor, Mean(h).value)
  {
    match Mean(h)
    case ZeroDivisionError => ZeroDivisionError
    case Ok(brightness) =>
      if brightness < threshold then
        var adjusted := AdjustBrightnessFactor(factor, brightness);
        Ok(Enhanced(factor, adjusted))
      else Ok(Unchanged)
  }

  /** A mean exactly at the threshold leaves the image alone: the comparison is strict. */
  lemma ThresholdIsStrict(h: seq<nat>, factor: real)
    requires Mean(h).Ok?
    ensures EnhanceBrightness(h, Mean(h).value, factor) == Ok(Unchanged)
  {
  }

  /**
   * The factor applied agrees with the factor logged only in the neutral band
   * strictly between 100 and 105.
   */
  lemma AppliedMatchesLoggedOnlyWhenNeutral(h: seq<nat>, threshold: real, factor: real)
    requires EnhanceBrightness(h, threshold, factor).Ok?
    requires EnhanceBrightness(h, threshold, factor).value.Enhanced?
    ensures var d := EnhanceBrightness(h, threshold, factor).value;
            d.applied == d.logged <==> 100.0 < Mean(h).value < 105.0
  {
  }

  /**
   * With a threshold of at most 100 (the default is 0.5) only the darkest band
   * can be reached: every enhanced image logs the configured factor plus 0.2.
   */
  lemma LowThresholdOnlyDarkBand(h: seq<nat>, threshold: real, factor: real)
    requires threshold <= 100.0
    ensures var r := EnhanceBrightness(h, threshold, factor);
            r.Ok? && r.value.Enhanced? ==> r.value.logged == factor + 0.2
  {
  }

  /** All pixels black: the histogram counts `n > 0` pixels in bucket 0 only. */
  predicate AllBlack(h: seq<nat>)
  {
    |h| == Buckets && h[0] > 0 && forall i | 0 < i < |h| :: h[i] == 0
  }

  /**
   * As written, an all-black image under the default threshold 0.5 and factor
   * 1.0 is enhanced with 1.0, so its brightness does not change, while 1.2 is
   * logged as the increase.
   */
  lemma AllBlackAsWritten(h: seq<nat>)
    requires AllBlack(h)
    ensures EnhanceBrightness(h, 0.5, 1.0) == Ok(Enhanced(1.0, 1.2))
  {
    SingleBucketMean(h, 0);
  }

  /** The evidently intended `enhance_brightness`: enhance with the adjusted factor. */
  function EnhanceBrightnessIntended(h: seq<nat>, threshold: real, factor: real): (r: Result<Decision>)
    ensures r.ZeroDivisionError? <==> Mean(h).ZeroDivisionError?
    ensures r.Ok? ==> (r.value.Unchanged? <==> Mean(h).value >= threshold)
    ensures r.Ok? && r.value.Enhanced? ==>
              r.value.applied == r.value.logged == AdjustBrightnessFactor(factor, Mean(h).value)
  {
    match Mean(h)
    case ZeroDivisionError => ZeroDivisionError
    case Ok(brightness) =>
      if brightness < threshold then
        var adjusted := AdjustBrightnessFactor(factor, brightness);
        Ok(Enhanced(adjusted, adjusted))
      else Ok(Unchanged)
  }

  /** With the correction, the all-black image is brightened by the factor 1.2. */
  lemma AllBlackIntended(h: seq<nat>)
    requires AllBlack(h)
    ensures EnhanceBrightnessIntended(h, 0.5, 1.0) == Ok(Enhanced(1.2, 1.2))
  {
    SingleBucketMean(h, 0);
  }

  /** The two versions take the same decision and differ only in the factor applied. */
  lemma IntendedDiffersOnlyInFactor(h: seq<nat>, threshold: real, factor: real)
    ensures EnhanceBrightness(h, threshold, factor).Ok? == EnhanceBrightnessIntended(h, threshold, factor).Ok?
    ensures EnhanceBrightness(h, threshold, factor).Ok? ==>
              match EnhanceBrightness(h, threshold, factor).value
              case Unchanged => EnhanceBrightnessIntended(h, threshold, factor) == Ok(Unchanged)
              case Enhanced(_, logged) => EnhanceBrightnessIntended(h, threshold, factor) == Ok(Enhanced(logged, logged))
  {
  }
}
