/** Float to integer truncation, trapping and saturating (crates/core/src/value.rs). */
module FloatTruncation {
  import opened Powers
  import opened FloatFormat
  import opened Wrappers

  datatype IntType = SInt32 | UInt32 | SInt64 | UInt64 {
    function Min(): int {
      match this
      case SInt32 => -0x8000_0000
      case SInt64 => -0x8000_0000_0000_0000
      case _ => 0
    }

    function Max(): int {
      match this
      case SInt32 => 0x7FFF_FFFF
      case UInt32 => 0xFFFF_FFFF
      case SInt64 => 0x7FFF_FFFF_FFFF_FFFF
      case UInt64 => 0xFFFF_FFFF_FFFF_FFFF
    }
  }

  /** The targets hold the integers of their widths, in two's complement or unsigned. */
  lemma IntegerRanges()
    ensures SInt32.Min() == -(Pow2(31) as int) && SInt32.Max() == Pow2(31) - 1
    ensures SInt64.Min() == -(Pow2(63) as int) && SInt64.Max() == Pow2(63) - 1
    ensures UInt32.Min() == 0 && UInt32.Max() == Pow2(32) - 1
    ensures UInt64.Min() == 0 && UInt64.Max() == Pow2(64) - 1
  {
    Pow2Values();
  }

  /** The float literal at and below which a conversion is rejected, one per pair of types. */
  function RMin(from: Float, to: IntType): int {
    match to
    case SInt32 => if IsF32(from) then -2147483904 else -2147483649
    case SInt64 => if IsF32(from) then -9223373136366403584 else -9223372036854777856
    case _ => -1
  }

  /** The float literal from which on a conversion is rejected. */
  function RMax(to: IntType): int {
    match to
    case SInt32 => 2147483648
    case UInt32 => 4294967296
    case SInt64 => 9223372036854775808
    case UInt64 => 18446744073709551616
  }

  /** `x <= c` for an integral float literal `c`. */
  predicate AtMost(one: nat, x: FloatVal, c: int) {
    match x
    case Nan => false
    case Infinite(neg) => neg
    case Finite(neg, units) => SignedUnits(neg, units) <= c * one
  }

  /** `x >= c` for an integral float literal `c`. */
  predicate AtLeast(one: nat, x: FloatVal, c: int) {
    match x
    case Nan => false
    case Infinite(neg) => !neg
    case Finite(neg, units) => SignedUnits(neg, units) >= c * one
  }

  /** Rounding towards zero. */
  function Truncated(one: nat, neg: bool, units: nat): int
    requires one > 0
  {
    var n := units / one;
    if neg then -n else n
  }

  /** Rust's `as` cast from a float to an integer type, which saturates. */
  function Cast(one: nat, x: FloatVal, to: IntType): int
    requires one > 0
  {
    match x
    case Nan => 0
    case Infinite(neg) => if neg then to.Min() else to.Max()
    case Finite(neg, units) =>
      var n := Truncated(one, neg, units);
      if n < to.Min() then to.Min() else if n > to.Max() then to.Max() else n
  }

  /** `try_truncate_into` on a value, `rmin` being the lower literal of the pair of types. */
  function TryTruncateVal(one: nat, x: FloatVal, rmin: int, to: IntType): Result<int, TrapCode>
    requires one > 0
  {
    if x.Nan? then Err(BadConversionToInteger)
    else if AtMost(one, x, rmin) || AtLeast(one, x, RMax(to)) then Err(IntegerOverflow)
    else Ok(Cast(one, x, to))
  }

  /** `truncate_saturate_into` on a value. */
  function TruncateSaturateVal(one: nat, x: FloatVal, to: IntType): int
    requires one > 0
  {
    if x.Nan? then 0
    else if x.Infinite? && !x.neg then to.Max()
    else if x.Infinite? && x.neg then to.Min()
    else Cast(one, x, to)
  }

  function TryTruncate(f: Float, bits: nat, to: IntType): Result<int, TrapCode> {
    TryTruncateVal(One(f), Decode(f, bits), RMin(f, to), to)
  }

  function TruncateSaturate(f: Float, bits: nat, to: IntType): int {
    TruncateSaturateVal(One(f), Decode(f, bits), to)
  }

  // ----- what truncation means -------------------------------------------------------

  /** `n` is the integer part of the number: section 4.3.4 of the WebAssembly Core Specification
      defines trunc_u and trunc_s by it. */
  ghost predicate IsIntegerPart(one: nat, neg: bool, units: nat, n: int) {
    var a := if neg then -n else n;
    0 <= a && a * one <= units < (a + 1) * one
  }

  lemma TruncatedIsIntegerPart(one: nat, neg: bool, units: nat, n: int)
    requires one > 0
    ensures IsIntegerPart(one, neg, units, n) <==> n == Truncated(one, neg, units)
  {
    var a := if neg then -n else n;
    DivBound(units, one, a);
    DivBound(units, one, a + 1);
  }

  // ----- the gaps below the signed minima --------------------------------------------

  /** A number with a mantissa of `w + 1` bits that exceeds `2^t` has its last place at or above
      `2^(t - w)`. */
  lemma LastPlace(mant: nat, k: nat, w: nat, t: nat)
    requires mant < Pow2(w + 1)
    requires mant * Pow2(k) > Pow2(t)
    ensures t <= w + k
  {
    MultiplesApart(mant, Pow2(w + 1), Pow2(k));
    Pow2Add(w + 1, k);
    Pow2Reflects(t, w + 1 + k);
  }

  /** ... and hence exceeds `2^t` by a whole last place. */
  lemma Gap(mant: nat, k: nat, w: nat, t: nat)
    requires mant < Pow2(w + 1) && w <= t
    requires mant * Pow2(k) > Pow2(t)
    ensures mant * Pow2(k) >= Pow2(t) + Pow2(t - w)
  {
    LastPlace(mant, k, w, t);
    var g := t - w;
    ShiftedOut(mant, k, g);
    Pow2Add(w, g);
    MultiplesApart(Pow2(w), mant * Pow2(k - g), Pow2(g));
  }

  /** No finite float lies strictly between -(2^t + 2^(t - fracBits)) and -2^t. */
  lemma NoFloatInGap(f: Format, mag: nat, t: nat)
    requires f.fracBits <= t
    requires Units(f, mag) > Pow2(t) * One(f)
    ensures Units(f, mag) >= (Pow2(t) + Pow2(t - f.fracBits)) * One(f)
  {
    var s := OneExp(f);
    var mant, k := UnitsShape(f, mag);
    Pow2Add(t, s);
    Pow2Add(t - f.fracBits, s);
    Gap(mant, k, f.fracBits, t + s);
    Distribute(Pow2(t), Pow2(t - f.fracBits), One(f));
  }

  /** In a gap the guard `u >= c` may replace the guard `u >= 2^t + 1`. */
  lemma GuardAcrossGap(f: Format, mag: nat, t: nat, c: nat, lo: nat)
    requires f.fracBits <= t && c == Pow2(t) + Pow2(t - f.fracBits) && lo == Pow2(t) + 1
    ensures Units(f, mag) >= c * One(f) <==> Units(f, mag) / One(f) >= lo
  {
    var u, one := Units(f, mag), One(f);
    DivBound(u, one, lo);
    MulMonotone(lo, c, one);
    MultiplesApart(Pow2(t), lo, one);
    if u > Pow2(t) * one {
      NoFloatInGap(f, mag, t);
    }
  }

  lemma SignedBounds(f: Float, to: IntType)
    requires to in {SInt32, SInt64} && !(IsF64(f) && to == SInt32)
    ensures var t := if to == SInt32 then 31 else 63;
            && to.Min() == -(Pow2(t) as int)
            && f.fracBits <= t
            && -RMin(f, to) == Pow2(t) + Pow2(t - f.fracBits)
  {
    Pow2Values();
    assert Pow2(11) == 2048;
    Pow2Add(8, 32);
  }

  /** The lower guard rejects a negative float exactly when its integer part lies below the
      target's minimum, although the literal itself lies further down. */
  lemma LowerGuard(f: Float, to: IntType, mag: nat)
    ensures -(Units(f, mag) as int) <= RMin(f, to) * One(f) <==> -(Units(f, mag) / One(f)) < to.Min()
  {
    if to in {SInt32, SInt64} && !(IsF64(f) && to == SInt32) {
      GapGuard(f, mag, to);
    } else {
      AdjacentGuard(f, mag, to);
    }
    NegateGuard(Units(f, mag), One(f), RMin(f, to), to.Min());
  }

  lemma GapGuard(f: Float, mag: nat, to: IntType)
    requires to in {SInt32, SInt64} && !(IsF64(f) && to == SInt32)
    ensures Units(f, mag) >= -RMin(f, to) * One(f) <==> Units(f, mag) / One(f) >= -to.Min() + 1
  {
    SignedBounds(f, to);
    GuardAcrossGap(f, mag, if to == SInt32 then 31 else 63, -RMin(f, to), -to.Min() + 1);
  }

  lemma AdjacentGuard(f: Float, mag: nat, to: IntType)
    requires !(to in {SInt32, SInt64} && !(IsF64(f) && to == SInt32))
    ensures Units(f, mag) >= -RMin(f, to) * One(f) <==> Units(f, mag) / One(f) >= -to.Min() + 1
  {
    assert -RMin(f, to) == -to.Min() + 1;
    DivBound(Units(f, mag), One(f), -to.Min() + 1);
  }

  lemma NegateGuard(u: nat, one: nat, rmin: int, min: int)
    requires one > 0
    requires u >= -rmin * one <==> u / one >= -min + 1
    ensures -(u as int) <= rmin * one <==> -(u / one) < min
  {
  }

  // ----- the conversions -------------------------------------------------------------

  /** The two guards let a finite float through exactly when the target can hold its integer part. */
  lemma Guards(f: Float, to: IntType, neg: bool, mag: nat)
    ensures var x := Finite(neg, Units(f, mag));
            AtMost(One(f), x, RMin(f, to)) || AtLeast(One(f), x, RMax(to))
            <==> !(to.Min() <= Truncated(One(f), neg, x.units) <= to.Max())
  {
    var u, one, rmin := Units(f, mag), One(f), RMin(f, to);
    if neg {
      LowerGuard(f, to, mag);
      NegativeGuards(one, u, rmin, to);
    } else {
      PositiveGuards(one, u, rmin, to);
    }
  }

  lemma NegativeGuards(one: nat, units: nat, rmin: int, to: IntType)
    requires one > 0
    requires -(units as int) <= rmin * one <==> -(units / one) < to.Min()
    ensures AtMost(one, Finite(true, units), rmin) || AtLeast(one, Finite(true, units), RMax(to))
            <==> !(to.Min() <= Truncated(one, true, units) <= to.Max())
  {
    DivBound(units, one, 0);
    MulMonotone(1, RMax(to), one);
  }

  lemma PositiveGuards(one: nat, units: nat, rmin: int, to: IntType)
    requires one > 0 && rmin < 0
    ensures AtMost(one, Finite(false, units), rmin) || AtLeast(one, Finite(false, units), RMax(to))
            <==> !(to.Min() <= Truncated(one, false, units) <= to.Max())
  {
    DivBound(units, one, 0);
    DivBound(units, one, RMax(to));
    MulMonotone(rmin, -1, one);
  }

  /** For all eight pairs of types and every bit pattern: the trapping conversion yields the
      integer part exactly when the target can hold it. */
  lemma TryTruncateMeaning(f: Float, to: IntType, bits: nat)
    ensures var r := TryTruncate(f, bits, to);
            match Decode(f, bits)
            case Nan => r == Err(BadConversionToInteger)
            case Infinite(_) => r == Err(IntegerOverflow)
            case Finite(neg, units) =>
              forall n | IsIntegerPart(One(f), neg, units, n) ::
                r == if to.Min() <= n <= to.Max() then Ok(n) else Err(IntegerOverflow)
  {
    TryTruncateOfValue(f, to, Decode(f, bits), Magnitude(f, bits));
  }

  /** The outcome for a finite number: its integer part if the target holds that. */
  ghost predicate IsTruncation(one: nat, neg: bool, units: nat, to: IntType, r: Result<int, TrapCode>) {
    forall n | IsIntegerPart(one, neg, units, n) :: r == if to.Min() <= n <= to.Max() then Ok(n) else Err(IntegerOverflow)
  }

  lemma TryTruncateOfValue(f: Float, to: IntType, x: FloatVal, mag: nat)
    requires x.Finite? ==> x.units == Units(f, mag)
    ensures var r := TryTruncateVal(One(f), x, RMin(f, to), to);
            match x
            case Nan => r == Err(BadConversionToInteger)
            case Infinite(_) => r == Err(IntegerOverflow)
            case Finite(neg, units) => IsTruncation(One(f), neg, units, to, r)
  {
    if x.Finite? {
      Guards(f, to, x.neg, mag);
      TryTruncateFinite(One(f), x.neg, x.units, RMin(f, to), to);
    }
  }

  /** Guards that fit the range of the target let exactly its integers through. */
  lemma TryTruncateFinite(one: nat, neg: bool, units: nat, rmin: int, to: IntType)
    requires one > 0
    requires var x := Finite(neg, units);
             AtMost(one, x, rmin) || AtLeast(one, x, RMax(to))
             <==> !(to.Min() <= Truncated(one, neg, units) <= to.Max())
    ensures IsTruncation(one, neg, units, to, TryTruncateVal(one, Finite(neg, units), rmin, to))
  {
    forall n | IsIntegerPart(one, neg, units, n)
      ensures n == Truncated(one, neg, units)
    {
      TruncatedIsIntegerPart(one, neg, units, n);
    }
  }

  /** `r` is the member of `lo..hi` closest to `n`. */
  ghost predicate IsClamp(n: int, lo: int, hi: int, r: int) {
    lo <= r <= hi && forall m | lo <= m <= hi :: Distance(n, r) <= Distance(n, m)
  }

  /** The saturating conversion yields the representable integer closest to the integer part, the
      end of the range for an infinity and zero for a NaN. */
  lemma SaturateMeaning(f: Float, to: IntType, bits: nat)
    ensures var r := TruncateSaturate(f, bits, to);
            match Decode(f, bits)
            case Nan => r == 0
            case Infinite(neg) => r == if neg then to.Min() else to.Max()
            case Finite(neg, units) =>
              forall n | IsIntegerPart(One(f), neg, units, n) :: IsClamp(n, to.Min(), to.Max(), r)
  {
    SaturateOfValue(One(f), Decode(f, bits), to);
  }

  lemma SaturateOfValue(one: nat, x: FloatVal, to: IntType)
    requires one > 0
    ensures var r := TruncateSaturateVal(one, x, to);
            match x
            case Nan => r == 0
            case Infinite(neg) => r == if neg then to.Min() else to.Max()
            case Finite(neg, units) =>
              forall n | IsIntegerPart(one, neg, units, n) :: IsClamp(n, to.Min(), to.Max(), r)
  {
    if x.Finite? {
      forall n | IsIntegerPart(one, x.neg, x.units, n)
        ensures n == Truncated(one, x.neg, x.units)
      {
        TruncatedIsIntegerPart(one, x.neg, x.units, n);
      }
      CastClamps(one, x.neg, x.units, to);
    }
  }

  lemma CastClamps(one: nat, neg: bool, units: nat, to: IntType)
    requires one > 0
    ensures IsClamp(Truncated(one, neg, units), to.Min(), to.Max(), Cast(one, Finite(neg, units), to))
  {
  }

  /** Where the trapping conversion succeeds the two agree; where it overflows, saturation yields
      an end of the range. */
  lemma SaturateAgreesWithTry(f: Float, to: IntType, bits: nat)
    ensures match TryTruncate(f, bits, to)
            case Ok(n) => TruncateSaturate(f, bits, to) == n
            case Err(IntegerOverflow) => TruncateSaturate(f, bits, to) in {to.Min(), to.Max()}
            case Err(_) => TruncateSaturate(f, bits, to) == 0
  {
    AgreementOfValue(f, to, Decode(f, bits), Magnitude(f, bits));
  }

  lemma AgreementOfValue(f: Float, to: IntType, x: FloatVal, mag: nat)
    requires x.Finite? ==> x.units == Units(f, mag)
    ensures var saturated := TruncateSaturateVal(One(f), x, to);
            match TryTruncateVal(One(f), x, RMin(f, to), to)
            case Ok(n) => saturated == n
            case Err(IntegerOverflow) => saturated in {to.Min(), to.Max()}
            case Err(_) => saturated == 0
  {
    if x.Finite? {
      RejectedCast(f, to, x.neg, mag);
    }
    Agreement(One(f), x, RMin(f, to), to);
  }

  lemma Agreement(one: nat, x: FloatVal, rmin: int, to: IntType)
    requires one > 0
    requires x.Finite? && (AtMost(one, x, rmin) || AtLeast(one, x, RMax(to))) ==>
               Cast(one, x, to) in {to.Min(), to.Max()}
    ensures match TryTruncateVal(one, x, rmin, to)
            case Ok(n) => TruncateSaturateVal(one, x, to) == n
            case Err(IntegerOverflow) => TruncateSaturateVal(one, x, to) in {to.Min(), to.Max()}
            case Err(_) => TruncateSaturateVal(one, x, to) == 0
  {
  }

  /** The cast of a finite float that the guards reject is an end of the range. */
  lemma RejectedCast(f: Float, to: IntType, neg: bool, mag: nat)
    ensures var x := Finite(neg, Units(f, mag));
            AtMost(One(f), x, RMin(f, to)) || AtLeast(One(f), x, RMax(to)) ==>
              Cast(One(f), x, to) in {to.Min(), to.Max()}
  {
    var one, units := One(f), Units(f, mag);
    Guards(f, to, neg, mag);
    if !(to.Min() <= Truncated(one, neg, units) <= to.Max()) {
      CastOutOfRange(one, neg, units, to);
    }
  }

  lemma CastOutOfRange(one: nat, neg: bool, units: nat, to: IntType)
    requires one > 0 && !(to.Min() <= Truncated(one, neg, units) <= to.Max())
    ensures Cast(one, Finite(neg, units), to) in {to.Min(), to.Max()}
  {
  }

  /** Saturation is monotone: a larger float never converts to a smaller integer. */
  lemma SaturateMonotone(f: Float, to: IntType, a: nat, b: nat)
    requires var x, y := Decode(f, a), Decode(f, b);
             && x.Finite? && y.Finite?
             && SignedUnits(x.neg, x.units) <= SignedUnits(y.neg, y.units)
    ensures TruncateSaturate(f, a, to) <= TruncateSaturate(f, b, to)
  {
    var x, y := Decode(f, a), Decode(f, b);
    CastMonotone(One(f), x.neg, x.units, y.neg, y.units, to);
  }

  lemma CastMonotone(one: nat, neg: bool, u: nat, neg': bool, u': nat, to: IntType)
    requires one > 0
    requires SignedUnits(neg, u) <= SignedUnits(neg', u')
    ensures Cast(one, Finite(neg, u), to) <= Cast(one, Finite(neg', u'), to)
  {
    DivMonotone(u, u', one);
    DivMonotone(u', u, one);
  }

  lemma DivMonotone(a: nat, b: nat, d: nat)
    requires 0 < d
    ensures 0 <= a / d && 0 <= b / d
    ensures a <= b ==> a / d <= b / d
  {
    DivBound(a, d, 0);
    DivBound(b, d, 0);
    DivBound(a, d, b / d + 1);
    DivBound(b, d, b / d + 1);
  }

  // ----- the literals are floats -----------------------------------------------------

  /** Every bound literal is exact: it is the value of a finite float of its format. */
  lemma BoundsAreFloats(f: Float, to: IntType) returns (lo: nat, hi: nat)
    ensures lo < InfMag(f) && Units(f, lo) == -RMin(f, to) * One(f)
    ensures hi < InfMag(f) && Units(f, hi) == RMax(to) * One(f)
  {
    lo := LowerBoundFloat(f, to);
    hi := UpperBoundFloat(f, to);
  }

  lemma LowerBoundFloat(f: Float, to: IntType) returns (lo: nat)
    ensures lo < InfMag(f) && Units(f, lo) == -RMin(f, to) * One(f)
  {
    RoomForIntegers(f);
    var mant, k := LowerBoundShape(f, to);
    lo := IntegralFloat(f, -RMin(f, to), mant, k);
  }

  lemma UpperBoundFloat(f: Float, to: IntType) returns (hi: nat)
    ensures hi < InfMag(f) && Units(f, hi) == RMax(to) * One(f)
  {
    RoomForIntegers(f);
    var k := UpperBoundShape(to);
    Pow2Increasing(0, f.fracBits);
    hi := IntegralFloat(f, RMax(to), 1, k);
  }

  lemma LowerBoundShape(f: Float, to: IntType) returns (mant: nat, k: nat)
    ensures k <= 64 && mant < Pow2(f.fracBits + 1) && -RMin(f, to) == mant * Pow2(k)
  {
    BoundPowers();
    match to
    case SInt32 => mant, k := if IsF32(f) then 0x80_0001 else 0x8000_0001, if IsF32(f) then 8 else 0;
    case SInt64 => mant, k := if IsF32(f) then 0x80_0001 else 0x10_0000_0000_0001, if IsF32(f) then 40 else 11;
    case _ => mant, k := 1, 0;
  }

  lemma BoundPowers()
    ensures Pow2(8) == 0x100 && Pow2(11) == 0x800 && Pow2(24) == 0x100_0000
    ensures Pow2(40) == 0x100_0000_0000 && Pow2(53) == 0x20_0000_0000_0000
  {
    Pow2Values();
    Pow2Add(3, 8);
    Pow2Add(8, 16);
    Pow2Add(8, 32);
    Pow2Add(24, 29);
    Pow2Add(13, 16);
  }

  lemma UpperBoundShape(to: IntType) returns (k: nat)
    ensures k <= 64 && RMax(to) == Pow2(k)
  {
    Pow2Values();
    k := match to case SInt32 => 31 case UInt32 => 32 case SInt64 => 63 case UInt64 => 64;
  }

  lemma RoomForIntegers(f: Float)
    ensures 64 + OneExp(f) + 1 < f.MaxExp()
  {
    StandardFormats(f);
  }

  lemma IntegralFloat(f: Format, n: nat, mant: nat, k: nat) returns (mag: nat)
    requires k + OneExp(f) + 1 < f.MaxExp() && mant < Pow2(f.fracBits + 1) && n == mant * Pow2(k)
    ensures mag < InfMag(f) && Units(f, mag) == n * One(f)
  {
    mag := Representable(f, mant, k + OneExp(f));
    ScaledUp(n, mant, k, OneExp(f));
  }
}
