/** `src/utils/deviceCheck.js`: a guess at whether the device is low-end, and the largest
    resolution the tools will process on it. The browser's `navigator` readings and
    `Math.sqrt` are parameters. */
module DeviceCheck {
  import opened Wrappers
  import opened JsMath

  /** Fewer than 4 cores or less than 4 GB of memory, where a reading that is missing or
      0 (`navigator.hardwareConcurrency || 4`, `navigator.deviceMemory || 4`) counts as 4. */
  function IsLowEndDevice(cores: Option<real>, memory: Option<real>): (low: bool)
    ensures !Truthy(cores) && !Truthy(memory) ==> !low
    ensures low <==> (Truthy(cores) && cores.value < 4.0) || (Truthy(memory) && memory.value < 4.0)
  {
    NumberOr(cores, 4.0) < 4.0 || NumberOr(memory, 4.0) < 4.0
  }

  /** In terms of the raw readings: the device is low-end exactly when one of them is
      present, non-zero and below 4; with nothing reported it is not. */
  lemma LowEndFromReadings(cores: Option<real>, memory: Option<real>)
    ensures IsLowEndDevice(cores, memory) <==>
              (cores.Some? && cores.value != 0.0 && cores.value < 4.0)
              || (memory.Some? && memory.value != 0.0 && memory.value < 4.0)
    ensures cores.None? && memory.None? ==> !IsLowEndDevice(cores, memory)
  {
  }

  /** The pixel budget: 1920 x 1080 on a low-end device, 3840 x 2160 otherwise. */
  function MaxPixels(lowEnd: bool): (n: nat)
    ensures lowEnd ==> n == 1920 * 1080
    ensures !lowEnd ==> n == 3840 * 2160
  {
    if lowEnd then 2073600 else 8294400
  }

  datatype Dims = Dims(width: int, height: int)

  /** `sqrt` returns the exact non-negative square root of every non-negative real. */
  ghost predicate IsSquareRoot(sqrt: real -> real) {
    forall v: real :: 0.0 <= v ==> 0.0 <= sqrt(v) && sqrt(v) * sqrt(v) == v
  }

  /** `getSafeResolution`, where `lowEnd` is `IsLowEndDevice` of the device's readings:
      dimensions within the budget are returned as they are; larger ones are both scaled by
      sqrt(budget / pixels) and floored, so the aspect ratio is kept up to the flooring,
      neither side grows and the pixel count fits the budget. */
  function GetSafeResolution(width: nat, height: nat, lowEnd: bool, sqrt: real -> real)
    : (d: Dims)
    requires IsSquareRoot(sqrt)
    ensures width * height <= MaxPixels(lowEnd) ==> d == Dims(width, height)
    ensures 0 <= d.width <= width && 0 <= d.height <= height
    ensures d.width * d.height <= MaxPixels(lowEnd)
    ensures width * height > MaxPixels(lowEnd) ==>
              var ratio := Ratio(width, height, MaxPixels(lowEnd), sqrt);
              && 0.0 < ratio < 1.0
              && d == ScaledDims(width, height, ratio)
  {
    var budget := MaxPixels(lowEnd);
    if width * height > budget then Shrink(width, height, budget, sqrt) else Dims(width, height)
  }

  /** `Math.sqrt(MAX_PIXELS / currentPixels)`, the common scale of both sides. */
  function Ratio(width: nat, height: nat, budget: nat, sqrt: real -> real): real
    requires width * height > 0
  {
    sqrt(budget as real / (width * height) as real)
  }

  /** Both sides scaled by `ratio` and floored, as `Math.floor(width * ratio)` and
      `Math.floor(height * ratio)`. */
  function ScaledDims(width: nat, height: nat, ratio: real): Dims {
    Dims(Floor(width as real * ratio), Floor(height as real * ratio))
  }

  /** The over-budget branch of `GetSafeResolution`. */
  function Shrink(width: nat, height: nat, budget: nat, sqrt: real -> real): (d: Dims)
    requires IsSquareRoot(sqrt) && width * height > budget > 0
    ensures 0 <= d.width <= width && 0 <= d.height <= height
    ensures d.width * d.height <= budget
    ensures 0.0 < Ratio(width, height, budget, sqrt) < 1.0
    ensures d == ScaledDims(width, height, Ratio(width, height, budget, sqrt))
  {
    ShrinkBounds(width, height, budget, sqrt);
    ScaledDims(width, height, Ratio(width, height, budget, sqrt))
  }

  /** Over budget the common scale lies in (0, 1), and both floored sides are within their
      originals and their product within the budget. */
  lemma ShrinkBounds(width: nat, height: nat, budget: nat, sqrt: real -> real)
    requires IsSquareRoot(sqrt) && width * height > budget > 0
    ensures var ratio := Ratio(width, height, budget, sqrt);
            var d := ScaledDims(width, height, ratio);
            && 0.0 < ratio < 1.0
            && 0 <= d.width <= width && 0 <= d.height <= height
            && d.width * d.height <= budget
  {
    ShrinkRatio(width, height, budget, sqrt);
    ScaledBounds(width, height, budget, Ratio(width, height, budget, sqrt));
  }

  /** Over budget the common scale lies strictly between 0 and 1, and scaling both sides
      by it scales the pixel count down to exactly the budget. */
  lemma ShrinkRatio(width: nat, height: nat, budget: nat, sqrt: real -> real)
    requires IsSquareRoot(sqrt) && width * height > budget > 0
    ensures var ratio := Ratio(width, height, budget, sqrt);
            && 0.0 < ratio < 1.0
            && (ratio * ratio) * (width * height) as real == budget as real
  {
    var p := (width * height) as real;
    var q := budget as real / p;
    QuotientBelowOne(budget as real, p, q);
    var ratio := Ratio(width, height, budget, sqrt);
    assert ratio * ratio == q;
    RootBelowOne(q, ratio);
  }

  /** Both sides scaled by a `ratio` in (0, 1) and floored stay between 0 and their
      originals, and fit the budget that `ratio` was made for. */
  lemma ScaledBounds(width: nat, height: nat, budget: nat, ratio: real)
    requires 0.0 < ratio < 1.0
    requires (ratio * ratio) * (width * height) as real == budget as real
    ensures var d := ScaledDims(width, height, ratio);
            && 0 <= d.width <= width && 0 <= d.height <= height
            && d.width * d.height <= budget
  {
    ScaledSide(width, ratio);
    ScaledSide(height, ratio);
    ScaledArea(width, height, budget, ratio);
  }

  /** A side scaled by a ratio in (0, 1) and floored stays between 0 and the side. */
  lemma ScaledSide(side: nat, ratio: real)
    requires 0.0 < ratio < 1.0
    ensures 0 <= Floor(side as real * ratio) <= side
  {
    var scaled := side as real * ratio;
    ScaledDown(side as real, ratio, Floor(scaled) as real, scaled);
  }

  /** The floored sides multiply to at most the budget. */
  lemma ScaledArea(width: nat, height: nat, budget: nat, ratio: real)
    requires 0.0 < ratio < 1.0
    requires (ratio * ratio) * (width * height) as real == budget as real
    ensures Floor(width as real * ratio) * Floor(height as real * ratio) <= budget
  {
    var wr, hr := width as real * ratio, height as real * ratio;
    ScaledSide(width, ratio);
    ScaledSide(height, ratio);
    ProductAsReal(width, height);
    ScaledProduct(width as real, height as real, ratio, ratio * ratio, wr, hr,
                  (width * height) as real);
    FlooredProduct(Floor(wr), Floor(hr), wr, hr, budget);
  }

  /** Natural numbers below two reals have a product below theirs. */
  lemma FlooredProduct(a: int, b: int, c: real, e: real, budget: int)
    requires 0 <= a && 0 <= b && a as real <= c && b as real <= e && c * e == budget as real
    ensures a * b <= budget
  {
    ProductAsReal(a, b);
    assert a as real * b as real <= c * b as real;
    assert c * b as real <= c * e;
  }

  /** Dividing the budget by a larger pixel count gives a ratio strictly between 0 and 1. */
  lemma QuotientBelowOne(budget: real, p: real, q: real)
    requires 0.0 < budget < p && q == budget / p
    ensures 0.0 < q < 1.0 && p * q == budget
  {
    assert p * q == budget;
    NegativeFactor(p, q - 1.0, budget - p);
  }

  /** A negative product with a positive first factor has a negative second factor. */
  lemma NegativeFactor(a: real, b: real, m: real)
    requires 0.0 < a && m == a * b && m < 0.0
    ensures b < 0.0
  {
  }

  lemma RootBelowOne(q: real, ratio: real)
    requires 0.0 < q < 1.0 && 0.0 <= ratio && ratio * ratio == q
    ensures 0.0 < ratio < 1.0
  {
    assert ratio != 0.0;
    NegativeFactor(1.0 + ratio, ratio - 1.0, q - 1.0);
  }

  /** A side scaled by a ratio below 1 does not grow, and its floor is a natural number. */
  lemma ScaledDown(side: real, ratio: real, floor: real, scaled: real)
    requires 0.0 <= side && 0.0 < ratio < 1.0 && scaled == side * ratio
    requires floor <= scaled < floor + 1.0
    ensures 0.0 <= scaled <= side
    ensures floor <= side && -1.0 < floor
  {
    assert side * ratio <= side * 1.0;
  }

  lemma ScaledProduct(w: real, h: real, ratio: real, q: real, wr: real, hr: real, p: real)
    requires wr == w * ratio && hr == h * ratio && ratio * ratio == q && p == w * h
    ensures wr * hr == p * q
  {
    assert wr * hr == (w * h) * (ratio * ratio);
  }

  lemma ProductAsReal(a: int, b: int)
    ensures (a * b) as real == a as real * b as real
  {
  }

  /** Clamping is idempotent: a clamped resolution is already safe. */
  lemma SafeResolutionIdempotent(width: nat, height: nat, lowEnd: bool, sqrt: real -> real)
    requires IsSquareRoot(sqrt)
    ensures var d := GetSafeResolution(width, height, lowEnd, sqrt);
            GetSafeResolution(d.width, d.height, lowEnd, sqrt) == d
  {
  }
}
