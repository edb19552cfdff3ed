/** Rounding to the nearest integer in builds without the standard library
    (crates/core/src/value.rs): round half away from zero, then repair the parity of ties. */
module FloatNearest {
  import opened Powers
  import opened FloatFormat

  // The `libm` functions, exact on the values they are given. `one` is the number 1.0 in units.

  function Trunc(one: nat, x: FloatVal): FloatVal
    requires one > 0
  {
    if x.Finite? then Finite(x.neg, x.units / one * one) else x
  }

  /** Rounds the magnitude up. */
  function Away(one: nat, x: FloatVal): FloatVal
    requires one > 0
  {
    if x.Finite? then Finite(x.neg, (x.units + one - 1) / one * one) else x
  }

  function Floor(one: nat, x: FloatVal): FloatVal
    requires one > 0
  {
    if x.Finite? && x.neg then Away(one, x) else Trunc(one, x)
  }

  function Ceil(one: nat, x: FloatVal): FloatVal
    requires one > 0
  {
    if x.Finite? && !x.neg then Away(one, x) else Trunc(one, x)
  }

  /** `round`: halfway cases go away from zero. */
  function Round(one: nat, x: FloatVal): FloatVal
    requires one > 0
  {
    if x.Finite? then Finite(x.neg, (2 * x.units + one) / (2 * one) * one) else x
  }

  /** `abs(x - y)` for numbers of the same sign. */
  function AbsDifference(x: FloatVal, y: FloatVal): FloatVal
    requires x.Finite? && y.Finite? ==> x.neg == y.neg
  {
    if x.Finite? && y.Finite? then
      Finite(false, if x.units < y.units then y.units - x.units else x.units - y.units)
    else if (x.Infinite? && y.Finite?) || (x.Finite? && y.Infinite?) then Infinite(false)
    else if x.Infinite? && y.Infinite? && x.neg != y.neg then Infinite(false)
    else Nan
  }

  /** `x % 2.0`, with the sign of `x`. */
  function RemTwo(one: nat, x: FloatVal): FloatVal
    requires one > 0
  {
    if x.Finite? then Finite(x.neg, x.units % (2 * one)) else Nan
  }

  function Nearest(one: nat, x: FloatVal): FloatVal
    requires one > 0
  {
    var round := Round(one, x);
    if AbsDifference(x, Trunc(one, x)) != Finite(false, one / 2) then round
    else
      var rem := RemTwo(one, round);
      if rem == Finite(false, one) then Floor(one, x)
      else if rem == Finite(true, one) then Ceil(one, x)
      else round
  }

  // ----- fnearest of section 4.3.3 of the WebAssembly Core Specification ----------------

  /** `r` is the integer nearest to `units / one`, and the even one of two equally near. */
  ghost predicate IsTiesToEven(one: nat, units: nat, r: int) {
    forall m: int :: m != r ==>
      || Distance(units, r * one) < Distance(units, m * one)
      || (Distance(units, r * one) == Distance(units, m * one) && r % 2 == 0)
  }

  /** One number has only one such integer. */
  lemma TiesToEvenUnique(one: nat, units: nat, r: int, r': int)
    requires one > 0 && IsTiesToEven(one, units, r) && IsTiesToEven(one, units, r')
    ensures r == r'
  {
    if r != r' {
      var lo, hi := if r < r' then r else r', if r < r' then r' else r;
      assert Distance(units, r * one) == Distance(units, r' * one);
      MultiplesApart(lo, lo + 1, one);
      MultiplesApart(lo + 1, hi, one);
      CloserInside(units, lo * one, (lo + 1) * one, hi * one);
    }
  }

  lemma CloserInside(x: int, a: int, b: int, c: int)
    requires a < b < c
    ensures Distance(x, b) < Distance(x, a) || Distance(x, b) < Distance(x, c)
  {
  }

  /** Being within half a unit suffices, with equality only for even integers. */
  lemma HalfwayBound(one: nat, units: nat, r: int)
    requires one > 0
    requires 2 * Distance(units, r * one) < one || (2 * Distance(units, r * one) == one && r % 2 == 0)
    ensures IsTiesToEven(one, units, r)
  {
    forall m: int | m != r
      ensures Distance(units, r * one) < Distance(units, m * one)
              || (Distance(units, r * one) == Distance(units, m * one) && r % 2 == 0)
    {
      MultiplesApart(m, r, one);
      MultiplesApart(r, m, one);
    }
  }

  /** The magnitude of `round`. */
  lemma RoundQuotient(h: nat, q: nat, t: nat)
    requires h > 0 && t < 2 * h
    ensures (2 * (q * (2 * h) + t) + 2 * h) / (2 * (2 * h)) == if t < h then q else q + 1
  {
    var one := 2 * h;
    var x := 2 * (q * one + t) + one;
    if t < h {
      assert x == q * (2 * one) + (2 * t + one);
      DivModUnique(x, 2 * one, q, 2 * t + one);
    } else {
      assert x == (q + 1) * (2 * one) + (2 * t - one);
      DivModUnique(x, 2 * one, q + 1, 2 * t - one);
    }
  }

  /** The remainder of an integral number by 2.0 tells its parity. */
  lemma Parity(one: nat, n: nat)
    requires one > 0
    ensures (n * one) % (2 * one) == if n % 2 == 0 then 0 else one
  {
    assert n == 2 * (n / 2) + n % 2;
    assert n * one == (n / 2) * (2 * one) + (n % 2) * one;
    DivModUnique(n * one, 2 * one, n / 2, (n % 2) * one);
  }

  lemma NearestOfFinite(one: nat, neg: bool, units: nat) returns (r: nat)
    requires one >= 2 && one % 2 == 0
    ensures Nearest(one, Finite(neg, units)) == Finite(neg, r * one)
    ensures IsTiesToEven(one, units, r)
    ensures r in {units / one, units / one + 1}
  {
    var q, t := DivMod(units, one);
    r := NearestOfParts(one, neg, q, t);
  }

  /** The integer part is `q`, the fraction `t` units. */
  lemma NearestOfParts(one: nat, neg: bool, q: nat, t: nat) returns (r: nat)
    requires one >= 2 && one % 2 == 0 && t < one
    ensures Nearest(one, Finite(neg, q * one + t)) == Finite(neg, r * one)
    ensures IsTiesToEven(one, q * one + t, r)
    ensures r in {q, q + 1}
  {
    if t != one / 2 {
      r := if t < one / 2 then q else q + 1;
      NearestOffTies(one, neg, q, t);
    } else {
      r := if q % 2 == 0 then q else q + 1;
      NearestOnTies(one, neg, q);
    }
    DistanceToNeighbour(one, q, t, r);
    HalfwayBound(one, q * one + t, r);
  }

  lemma DistanceToNeighbour(one: nat, q: nat, t: nat, r: nat)
    requires t < one && r in {q, q + 1}
    ensures Distance(q * one + t, r * one) == if r == q then t else one - t
  {
    Distribute(q, 1, one);
  }

  /** `round` and `trunc` of a number given by its parts. */
  lemma RoundAndTrunc(one: nat, neg: bool, q: nat, t: nat)
    requires one >= 2 && one % 2 == 0 && t < one
    ensures Round(one, Finite(neg, q * one + t)) == Finite(neg, (if t < one / 2 then q else q + 1) * one)
    ensures Trunc(one, Finite(neg, q * one + t)) == Finite(neg, q * one)
  {
    RoundQuotient(one / 2, q, t);
    DivModUnique(q * one + t, one, q, t);
  }

  lemma NearestOffTies(one: nat, neg: bool, q: nat, t: nat)
    requires one >= 2 && one % 2 == 0 && t < one && t != one / 2
    ensures Nearest(one, Finite(neg, q * one + t))
            == Finite(neg, (if t < one / 2 then q else q + 1) * one)
  {
    RoundAndTrunc(one, neg, q, t);
  }

  /** On a tie an odd rounded number is replaced by the truncated one. */
  lemma NearestOnTies(one: nat, neg: bool, q: nat)
    requires one >= 2 && one % 2 == 0
    ensures Nearest(one, Finite(neg, q * one + one / 2))
            == Finite(neg, (if q % 2 == 0 then q else q + 1) * one)
  {
    RoundAndTrunc(one, neg, q, one / 2);
    Parity(one, q + 1);
  }

  /** For every bit pattern: infinities and NaNs pass through, and a finite number becomes the
      nearest integer with ties to even, of the same sign, zero included. */
  lemma NearestMeaning(f: Format, bits: nat)
    ensures var x, r := Decode(f, bits), Nearest(One(f), Decode(f, bits));
            match x
            case Finite(neg, units) =>
              r.Finite? && r.neg == neg
              && exists n: nat :: r.units == n * One(f) && IsTiesToEven(One(f), units, n)
            case _ => r == x
  {
    var x := Decode(f, bits);
    if x.Finite? {
      var n := NearestOfFinite(One(f), x.neg, x.units);
    }
  }

  // ----- none of the steps rounds --------------------------------------------------------

  /** Some finite float of the format has this magnitude. */
  ghost predicate IsValue(f: Format, units: nat) {
    exists mag: nat :: mag < InfMag(f) && Units(f, mag) == units
  }

  lemma RepresentableValue(f: Format, mant: nat, k: nat, units: nat)
    requires mant < Pow2(f.fracBits + 1) && k + 1 < f.MaxExp() && units == mant * Pow2(k)
    ensures IsValue(f, units)
  {
    var mag := Representable(f, mant, k);
  }

  lemma ZeroIsValue(f: Format)
    ensures IsValue(f, 0)
  {
    RepresentableValue(f, 0, 0, 0);
  }

  lemma OneIsValue(f: Format)
    ensures IsValue(f, One(f))
  {
    Pow2Increasing(0, f.fracBits);
    RepresentableValue(f, 1, OneExp(f), One(f));
  }

  /** The integer part of a float is a float, and so is the next integer unless it is one itself. */
  lemma IntegerIsValue(f: Format, mag: nat, r: nat)
    requires mag < InfMag(f)
    requires var q := Units(f, mag) / One(f); r == q || (r == q + 1 && Units(f, mag) % One(f) != 0)
    ensures IsValue(f, r * One(f))
  {
    var mant, k := UnitsShape(f, mag);
    if k >= OneExp(f) {
      LargeIsInteger(Units(f, mag), mant, k, OneExp(f), r);
    } else {
      SmallInteger(Units(f, mag), mant, k, OneExp(f), f.fracBits, r);
      RepresentableValue(f, r, OneExp(f), r * One(f));
    }
  }

  lemma LargeIsInteger(units: nat, mant: nat, k: nat, s: nat, r: nat)
    requires k >= s && units == mant * Pow2(k)
    requires var q := units / Pow2(s); r == q || (r == q + 1 && units % Pow2(s) != 0)
    ensures units == r * Pow2(s) && units % Pow2(s) == 0
  {
    ShiftedOut(mant, k, s);
    DivModUnique(units, Pow2(s), mant * Pow2(k - s), 0);
  }

  lemma SmallInteger(units: nat, mant: nat, k: nat, s: nat, w: nat, r: nat)
    requires k < s && units == mant * Pow2(k) && mant < Pow2(w + 1) && r <= units / Pow2(s) + 1
    ensures r < Pow2(w + 1)
  {
    QuotientWhenSmall(mant, k, s, w);
  }

  /** The fraction of a float is a float: subtracting the integer part does not round. */
  lemma FractionIsValue(f: Format, mag: nat)
    ensures IsValue(f, Units(f, mag) % One(f))
  {
    var mant, k := UnitsShape(f, mag);
    var m, e := FractionShape(Units(f, mag), mant, k, OneExp(f));
    RepresentableValue(f, m, e, Units(f, mag) % One(f));
  }

  lemma FractionShape(units: nat, mant: nat, k: nat, s: nat) returns (m: nat, e: nat)
    requires units == mant * Pow2(k) && s > 0
    ensures units % Pow2(s) == m * Pow2(e) && m <= mant && e < s
  {
    if k >= s {
      LargeIsInteger(units, mant, k, s, units / Pow2(s));
      m, e := 0, 0;
    } else {
      SmallFraction(units, mant, k, s);
      m, e := mant % Pow2(s - k), k;
    }
  }

  lemma SmallFraction(units: nat, mant: nat, k: nat, s: nat)
    requires k < s && units == mant * Pow2(k)
    ensures units % Pow2(s) == (mant % Pow2(s - k)) * Pow2(k)
    ensures mant % Pow2(s - k) <= mant
  {
    RemainderOfShifted(mant, k, s);
    DivModBelow(mant, Pow2(s - k));
  }

  lemma DivModBelow(x: nat, d: nat)
    requires d > 0
    ensures x % d <= x
  {
    var q, r := DivMod(x, d);
    MulMonotone(0, q, d);
  }

  lemma AwayQuotient(one: nat, q: nat, t: nat)
    requires t < one
    ensures (q * one + t + one - 1) / one == if t == 0 then q else q + 1
  {
    if t == 0 {
      DivModUnique(q * one + one - 1, one, q, one - 1);
    } else {
      Distribute(q, 1, one);
      DivModUnique(q * one + t + one - 1, one, q + 1, t - 1);
    }
  }

  /** The `libm` functions on a number with integer part `q` and a fraction of `t` units: towards zero,
      down, up, to the nearest with halves away from zero, and the remainder by 2.0. */
  lemma LibmMeaning(one: nat, neg: bool, q: nat, t: nat)
    requires one >= 2 && one % 2 == 0 && t < one
    ensures var x := Finite(neg, q * one + t);
            && Trunc(one, x) == Finite(neg, q * one)
            && Floor(one, x) == Finite(neg, (if neg && t > 0 then q + 1 else q) * one)
            && Ceil(one, x) == Finite(neg, (if !neg && t > 0 then q + 1 else q) * one)
            && Round(one, x) == Finite(neg, (if 2 * t >= one then q + 1 else q) * one)
            && RemTwo(one, x) == Finite(neg, (q % 2) * one + t)
  {
    RoundAndTrunc(one, neg, q, t);
    AwayQuotient(one, q, t);
    RemainderByTwo(one, q, t);
  }

  lemma RemainderByTwo(one: nat, q: nat, t: nat)
    requires t < one
    ensures (q * one + t) % (2 * one) == (q % 2) * one + t
  {
    var h, b := q / 2, q % 2;
    Distribute(2 * h, b, one);
    MultiplesApart(b, 2, one);
    assert (2 * h) * one == h * (2 * one);
    DivModUnique(q * one + t, 2 * one, h, b * one + t);
  }

  /** For every finite float, everything the algorithm computes on the way is a float of the same
      format: the operations of the hardware, which round to a float, are exact here. */
  lemma NearestStepsAreExact(f: Format, bits: nat)
    requires Decode(f, bits).Finite?
    ensures var one, x := One(f), Decode(f, bits);
            && IsValue(f, Round(one, x).units) && IsValue(f, Trunc(one, x).units)
            && IsValue(f, AbsDifference(x, Trunc(one, x)).units)
            && IsValue(f, RemTwo(one, Round(one, x)).units)
            && IsValue(f, Floor(one, x).units) && IsValue(f, Ceil(one, x).units)
            && IsValue(f, Nearest(one, x).units)
  {
    FiniteBelowInf(f, Magnitude(f, bits));
    StepsAreExact(f, Magnitude(f, bits), Decode(f, bits).neg);
  }

  lemma StepsAreExact(f: Format, mag: nat, neg: bool)
    requires mag < InfMag(f)
    ensures var one, x := One(f), Finite(neg, Units(f, mag));
            && IsValue(f, Round(one, x).units) && IsValue(f, Trunc(one, x).units)
            && IsValue(f, AbsDifference(x, Trunc(one, x)).units)
            && IsValue(f, RemTwo(one, Round(one, x)).units)
            && IsValue(f, Floor(one, x).units) && IsValue(f, Ceil(one, x).units)
            && IsValue(f, Nearest(one, x).units)
  {
    var one := One(f);
    var q, t := DivMod(Units(f, mag), one);
    IntegerIsValue(f, mag, q);
    if t != 0 {
      IntegerIsValue(f, mag, q + 1);
    }
    FractionIsValue(f, mag);
    ZeroIsValue(f);
    OneIsValue(f);
    StepsOfParts(f, one, neg, q, t);
  }

  lemma StepsOfParts(f: Format, one: nat, neg: bool, q: nat, t: nat)
    requires one >= 2 && one % 2 == 0 && t < one
    requires IsValue(f, q * one) && (t != 0 ==> IsValue(f, (q + 1) * one))
    requires IsValue(f, t) && IsValue(f, 0) && IsValue(f, one)
    ensures var x := Finite(neg, q * one + t);
            && IsValue(f, Round(one, x).units) && IsValue(f, Trunc(one, x).units)
            && IsValue(f, AbsDifference(x, Trunc(one, x)).units)
            && IsValue(f, RemTwo(one, Round(one, x)).units)
            && IsValue(f, Floor(one, x).units) && IsValue(f, Ceil(one, x).units)
            && IsValue(f, Nearest(one, x).units)
  {
    RoundAndTrunc(one, neg, q, t);
    AwayQuotient(one, q, t);
    Parity(one, q);
    Parity(one, q + 1);
  }

  /** In particular the result is a number of the format. */
  lemma NearestIsRepresentable(f: Format, bits: nat) returns (mag: nat)
    requires Decode(f, bits).Finite?
    ensures mag < InfMag(f)
    ensures Nearest(One(f), Decode(f, bits)).units == Units(f, mag)
  {
    NearestStepsAreExact(f, bits);
    mag := MagnitudeOf(f, Nearest(One(f), Decode(f, bits)).units);
  }

  lemma MagnitudeOf(f: Format, units: nat) returns (mag: nat)
    requires IsValue(f, units)
    ensures mag < InfMag(f) && Units(f, mag) == units
  {
    mag :| mag < InfMag(f) && Units(f, mag) == units;
  }

  lemma QuotientWhenSmall(mant: nat, k: nat, s: nat, w: nat)
    requires k < s && mant < Pow2(w + 1)
    ensures (mant * Pow2(k)) / Pow2(s) < Pow2(w)
  {
    MultiplesApart(mant, Pow2(w + 1), Pow2(k));
    Pow2Add(w + 1, k);
    Pow2Add(w, s);
    if w + 1 + k < w + s {
      Pow2Increasing(w + 1 + k, w + s);
    }
    DivBound(mant * Pow2(k), Pow2(s), Pow2(w));
  }
}
