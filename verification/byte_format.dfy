/** The `formatBytes(bytes, decimals = 2)` helper that the resizer and the compressor each
    define, differing only in their unit tables. */
module ByteFormat {
  import opened JsMath

  const Kilo: nat := 1024

  /** What the helper returns: a number and a unit name, concatenated with a space by the
      source (`0 B` is `Size(0, "B")`), or the text `NaN undefined` for a negative input. */
  datatype Size = Size(amount: real, unit: string) | NotANumber

  /** `Math.floor(Math.log(bytes) / Math.log(1024))` in exact arithmetic: the number of
      whole powers of 1024 in `bytes`. */
  function UnitIndex(bytes: nat): (i: nat)
    requires bytes >= 1
    ensures Pow(Kilo, i) <= bytes < Pow(Kilo, i + 1)
    decreases bytes
  {
    if bytes < Kilo then 0
    else
      var j := UnitIndex(bytes / Kilo);
      assert Pow(Kilo, j + 1) == Kilo * Pow(Kilo, j);
      assert Pow(Kilo, j + 2) == Kilo * Pow(Kilo, j + 1);
      j + 1
  }

  lemma {:induction false} PowMonotone(lo: nat, hi: nat)
    requires lo <= hi
    ensures Pow(Kilo, lo) <= Pow(Kilo, hi)
    decreases hi - lo
  {
    if lo < hi {
      PowMonotone(lo + 1, hi);
    }
  }

  /** Only one exponent brackets a given size. */
  lemma UnitIndexUnique(bytes: nat, i: nat)
    requires bytes >= 1
    requires Pow(Kilo, i) <= bytes < Pow(Kilo, i + 1)
    ensures UnitIndex(bytes) == i
  {
    var j := UnitIndex(bytes);
    if j < i {
      PowMonotone(j + 1, i);
    } else if i < j {
      PowMonotone(i + 1, j);
    }
  }

  /** `formatBytes(bytes, decimals)` with the unit table `units`. Falsy input gives zero of
      the first unit; a negative input makes `Math.log` NaN; an exponent past the table
      reads `undefined`. */
  function FormatBytes(bytes: int, decimals: int, units: seq<string>): (r: Size)
    requires |units| >= 1
    ensures bytes == 0 <==> r == Size(0.0, units[0])
    ensures bytes < 0 <==> r == NotANumber
  {
    if bytes == 0 then Size(0.0, units[0])
    else if bytes < 0 then NotANumber
    else
      var dm: nat := if decimals < 0 then 0 else decimals;
      var i := UnitIndex(bytes);
      var amount := ToFixed(bytes as real / Pow(Kilo, i) as real, dm);
      assert amount >= 1.0 by {
        RoundedAmountAtLeastOne(bytes, i, dm);
      }
      Size(amount, if i < |units| then units[i] else "undefined")
  }

  lemma RoundedAmountAtLeastOne(bytes: nat, i: nat, dm: nat)
    requires Pow(Kilo, i) <= bytes
    ensures ToFixed(bytes as real / Pow(Kilo, i) as real, dm) >= 1.0
  {
    var p := Pow(Kilo, i);
    QuotientBetween(bytes as real, p as real);
    ToFixedBetween(bytes as real / p as real, dm, 1, bytes);
  }

  /** Dividing by a power of 1024 that does not exceed the dividend leaves at least 1 and at
      most the dividend. */
  lemma QuotientBetween(a: real, p: real)
    requires 1.0 <= p <= a
    ensures 1.0 <= a / p <= a
  {
    var q := a / p;
    assert q * p == a;
    assert a * 1.0 <= a * p;
  }

  /** Rounding to a number of places never leaves an interval with integer ends. */
  lemma ToFixedBetween(x: real, dm: nat, lo: int, hi: int)
    requires lo as real <= x <= hi as real
    ensures lo as real <= ToFixed(x, dm) <= hi as real
  {
    var s := Pow(10, dm);
    var n := FixedUnits(x, dm);
    UnitsBetween(x, s, n, lo, hi);
    DivideBetween(n, s, lo, hi);
    assert ToFixed(x, dm) == n as real / s as real;
  }

  lemma UnitsBetween(x: real, s: nat, n: int, lo: int, hi: int)
    requires s > 0 && lo as real <= x <= hi as real
    requires n as real - 0.5 <= x * s as real <= n as real + 0.5
    ensures lo * s <= n <= hi * s
  {
    ScaleBetween(x, s as real, lo as real, hi as real);
    assert (lo * s) as real == lo as real * s as real;
    assert (hi * s) as real == hi as real * s as real;
  }

  lemma ScaleBetween(x: real, s: real, lo: real, hi: real)
    requires s > 0.0 && lo <= x <= hi
    ensures lo * s <= x * s <= hi * s
  {
  }

  lemma DivideBetween(n: int, s: nat, lo: int, hi: int)
    requires s > 0 && lo * s <= n <= hi * s
    ensures lo as real <= n as real / s as real <= hi as real
  {
    assert (lo * s) as real == lo as real * s as real;
    assert (hi * s) as real == hi as real * s as real;
  }

  /** The unit is the table entry `i` exactly when `1024^i <= bytes < 1024^(i+1)`, and the
      number is the size in that unit rounded to `decimals` places, so between 1 and 1024. */
  lemma FormatBytesUnit(bytes: nat, decimals: int, units: seq<string>, i: nat)
    requires |units| >= 1 && i < |units|
    requires Pow(Kilo, i) <= bytes < Pow(Kilo, i + 1)
    ensures FormatBytes(bytes, decimals, units).Size?
    ensures FormatBytes(bytes, decimals, units).unit == units[i]
    ensures var dm: nat := if decimals < 0 then 0 else decimals;
            FormatBytes(bytes, decimals, units).amount
              == ToFixed(bytes as real / Pow(Kilo, i) as real, dm)
    ensures 1.0 <= FormatBytes(bytes, decimals, units).amount <= 1024.0
  {
    UnitIndexUnique(bytes, i);
    var dm: nat := if decimals < 0 then 0 else decimals;
    var p := Pow(Kilo, i);
    assert Pow(Kilo, i + 1) == Kilo * p;
    QuotientBelow(bytes, p);
    ToFixedBetween(bytes as real / p as real, dm, 1, 1024);
  }

  lemma QuotientBelow(bytes: nat, p: nat)
    requires 0 < p <= bytes < Kilo * p
    ensures 1.0 <= bytes as real / p as real <= 1024.0
  {
    assert (Kilo * p) as real == 1024.0 * p as real;
  }
}
