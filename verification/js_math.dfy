/** Exact-arithmetic counterparts of the JavaScript number operations the tools use.
    JavaScript numbers are IEEE doubles; here they are exact reals, so these functions
    describe the rounding rules themselves and not the floating-point error. */
module JsMath {
  import opened Wrappers

  /** A whole number above 0, such as a side of a decoded image. */
  type Positive = n: nat | n > 0 witness 1

  /** A JavaScript number that may be missing (`undefined`) is truthy when present and not
      0; NaN is not modelled. */
  predicate Truthy(v: Option<real>) {
    v.Some? && v.value != 0.0
  }

  /** `v || fallback` for a number that may be missing. */
  function NumberOr(v: Option<real>, fallback: real): (r: real)
    ensures Truthy(v) ==> r == v.value
    ensures !Truthy(v) ==> r == fallback
  {
    if Truthy(v) then v.value else fallback
  }

  /** `Math.floor` */
  function Floor(x: real): (r: int)
    ensures r as real <= x < r as real + 1.0
  {
    x.Floor
  }

  /** `Math.round`: the nearest integer, halves rounded towards +infinity. */
  function Round(x: real): (r: int)
    ensures r as real - 0.5 <= x < r as real + 0.5
  {
    Floor(x + 0.5)
  }

  function Pow(base: nat, exp: nat): (r: nat)
    ensures base > 0 ==> r > 0
  {
    if exp == 0 then 1 else base * Pow(base, exp - 1)
  }

  /** The integer `n` that `Number.prototype.toFixed(digits)` renders: the magnitude
      scaled by 10^digits and rounded to the nearest integer, a tie going to the larger
      magnitude, then the sign put back. The rendered number is `n / 10^digits`. */
  function FixedUnits(x: real, digits: nat): (n: int)
    ensures 0.0 <= x ==> 0 <= n
    ensures var scaled := x * Pow(10, digits) as real;
            n as real - 0.5 <= scaled <= n as real + 0.5
    ensures var scaled := x * Pow(10, digits) as real;
            0.0 <= x ==> n as real - 0.5 <= scaled < n as real + 0.5
    ensures var scaled := x * Pow(10, digits) as real;
            x < 0.0 ==> n as real - 0.5 < scaled <= n as real + 0.5
  {
    var scale := Pow(10, digits) as real;
    if x < 0.0 then -Floor(-x * scale + 0.5) else Floor(x * scale + 0.5)
  }

  /** The value of `x.toFixed(digits)` read back as a number. */
  function ToFixed(x: real, digits: nat): (r: real)
    ensures var step := 1.0 / Pow(10, digits) as real;
            x - step / 2.0 <= r <= x + step / 2.0
  {
    var scale := Pow(10, digits) as real;
    var n := FixedUnits(x, digits);
    assert n as real - 0.5 <= x * scale <= n as real + 0.5;
    DivideBounds(n as real, x, scale);
    n as real / scale
  }

  /** Dividing `|n - x*scale| <= 1/2` by `scale`. */
  lemma DivideBounds(n: real, x: real, scale: real)
    requires scale >= 1.0
    requires n - 0.5 <= x * scale <= n + 0.5
    ensures x - (1.0 / scale) / 2.0 <= n / scale <= x + (1.0 / scale) / 2.0
  {
    assert (n - 0.5) / scale <= x <= (n + 0.5) / scale;
  }

  /** Rounding never leaves an interval with integer ends. */
  lemma RoundBetween(x: real, lo: int, hi: int)
    requires lo as real <= x <= hi as real
    ensures lo <= Round(x) <= hi
  {
  }

  /** Rounding an integer gives it back. */
  lemma RoundOfInteger(n: int)
    ensures Round(n as real) == n
  {
  }
}
