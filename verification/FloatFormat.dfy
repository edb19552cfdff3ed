/** IEEE 754 binary formats: bit patterns and the exact values they stand for.

    A finite float is an integer multiple of the least subnormal of its format, so its magnitude is
    kept as that integer, counted in `units`. The number 1.0 is `One()` units. */
module FloatFormat {
  import opened Powers

  datatype RawFormat = RawFormat(expBits: nat, fracBits: nat) {
    function Bias(): int
      requires expBits > 0
    {
      Pow2(expBits - 1) - 1
    }

    /** The exponent field of infinities and NaNs. */
    function MaxExp(): nat { Pow2(expBits) - 1 }

    /** The weight of the sign bit: magnitudes are the patterns below it. */
    function SignWeight(): nat { Pow2(expBits + fracBits) }
  }

  /** The fraction is at most as wide as the bias, as in every IEEE interchange format from
      binary32 on; this is what makes all small integers representable. */
  type Format = f: RawFormat | f.expBits >= 2 && 1 <= f.fracBits <= f.Bias()
    witness (Pow2Add(1, 1); RawFormat(2, 1))

  predicate IsF32(f: RawFormat) { f.expBits == 8 && f.fracBits == 23 }

  predicate IsF64(f: RawFormat) { f.expBits == 11 && f.fracBits == 52 }

  lemma StandardFormats(f: RawFormat)
    requires IsF32(f) || IsF64(f)
    ensures 1 <= f.fracBits <= f.Bias()
    ensures f.Bias() == if IsF32(f) then 127 else 1023
    ensures f.MaxExp() == if IsF32(f) then 255 else 2047
  {
    assert Pow2(7) == 128 && Pow2(8) == 256 && Pow2(10) == 1024 && Pow2(11) == 2048;
  }

  /** The formats of `f32` and `f64`. */
  type Float = f: Format | IsF32(f) || IsF64(f)
    witness (StandardFormats(RawFormat(8, 23)); RawFormat(8, 23))

  /** log2 of the number of units in 1.0. */
  function OneExp(f: Format): (e: nat)
    ensures e >= 1
  {
    f.Bias() + f.fracBits - 1
  }

  function One(f: Format): (o: nat)
    ensures o >= 2 && o % 2 == 0
  {
    Pow2(OneExp(f))
  }

  function ExpField(f: Format, mag: nat): nat { mag / Pow2(f.fracBits) }

  function FracField(f: Format, mag: nat): nat { mag % Pow2(f.fracBits) }

  function InfMag(f: Format): nat { f.MaxExp() * Pow2(f.fracBits) }

  /** The value of an exponent field and a fraction field, `w` being the weight of the implicit
      leading bit, which subnormals do not have. */
  function UnitsOf(w: nat, e: nat, m: nat): nat {
    if e == 0 then m else (w + m) * Pow2(e - 1)
  }

  /** The magnitude in units. */
  function Units(f: Format, mag: nat): nat {
    UnitsOf(Pow2(f.fracBits), ExpField(f, mag), FracField(f, mag))
  }

  datatype FloatVal = Nan | Infinite(neg: bool) | Finite(neg: bool, units: nat)

  function SignedUnits(neg: bool, units: nat): int {
    if neg then -(units as int) else units
  }

  function SignBit(f: Format, bits: nat): bool { bits >= f.SignWeight() }

  function Magnitude(f: Format, bits: nat): nat {
    if SignBit(f, bits) then bits - f.SignWeight() else bits
  }

  ghost predicate IsPattern(f: Format, bits: nat) {
    bits < 2 * f.SignWeight()
  }

  function Decode(f: Format, bits: nat): FloatVal {
    var mag := Magnitude(f, bits);
    if ExpField(f, mag) >= f.MaxExp() then
      if FracField(f, mag) == 0 then Infinite(SignBit(f, bits)) else Nan
    else Finite(SignBit(f, bits), Units(f, mag))
  }

  /** Units of a magnitude as mantissa times power of two. */
  lemma UnitsShape(f: Format, mag: nat) returns (mant: nat, k: nat)
    ensures Units(f, mag) == mant * Pow2(k)
    ensures mant < Pow2(f.fracBits + 1)
  {
    var e, m := ExpField(f, mag), FracField(f, mag);
    if e == 0 {
      mant, k := m, 0;
    } else {
      mant, k := Pow2(f.fracBits) + m, e - 1;
    }
  }

  /** The pattern with exponent field `e` and fraction field `m`. */
  function Pack(f: Format, e: nat, m: nat): nat { e * Pow2(f.fracBits) + m }

  lemma PackFields(f: Format, e: nat, m: nat)
    requires m < Pow2(f.fracBits)
    ensures ExpField(f, Pack(f, e, m)) == e && FracField(f, Pack(f, e, m)) == m
    ensures e < f.MaxExp() ==> Pack(f, e, m) < InfMag(f)
  {
    DivModUnique(Pack(f, e, m), Pow2(f.fracBits), e, m);
    MultiplesApart(e, f.MaxExp(), Pow2(f.fracBits));
  }

  /** Every small mantissa times power of two is the value of some finite magnitude. */
  lemma {:induction false} Representable(f: Format, mant: nat, k: nat) returns (mag: nat)
    requires mant < Pow2(f.fracBits + 1)
    requires k + 1 < f.MaxExp()
    ensures mag < InfMag(f) && Units(f, mag) == mant * Pow2(k)
    decreases k
  {
    var w := Pow2(f.fracBits);
    if mant >= w {
      mag := Pack(f, k + 1, mant - w);
      PackFields(f, k + 1, mant - w);
    } else if k == 0 {
      mag := Pack(f, 0, mant);
      PackFields(f, 0, mant);
    } else {
      mag := Representable(f, 2 * mant, k - 1);
      MulAssociative(mant, 2, Pow2(k - 1));
    }
  }

  // ----- what a pattern stands for -----------------------------------------------------

  /** The value of every pattern in terms of the number 1.0, by the fields as IEEE 754 gives them:
      with `p` fraction bits and bias `b` a normal float is (1 + m / 2^p) * 2^(e - b), a subnormal one
      m / 2^p * 2^(1 - b), both stated without division. */
  lemma DecodeMeaning(f: Format, neg: bool, e: nat, m: nat)
    requires e < Pow2(f.expBits) && m < Pow2(f.fracBits)
    ensures var p, b := f.fracBits, Pow2(f.expBits - 1) - 1;
            var bits := (if neg then Pow2(f.expBits + p) else 0) + (e * Pow2(p) + m);
            match Decode(f, bits)
            case Nan => e == Pow2(f.expBits) - 1 && m != 0
            case Infinite(s) => e == Pow2(f.expBits) - 1 && m == 0 && s == neg
            case Finite(s, units) =>
              && e < Pow2(f.expBits) - 1 && s == neg
              && if e == 0 then units * Pow2(b + p - 1) == One(f) * m
                 else units * Pow2(b + p) == One(f) * ((Pow2(p) + m) * Pow2(e))
  {
    DecodeFields(f, neg, e, m);
    UnitsScale(f, e, m);
  }

  lemma DecodeFields(f: Format, neg: bool, e: nat, m: nat)
    requires e < Pow2(f.expBits) && m < Pow2(f.fracBits)
    ensures Decode(f, (if neg then Pow2(f.expBits + f.fracBits) else 0) + (e * Pow2(f.fracBits) + m))
            == if e == Pow2(f.expBits) - 1 then if m == 0 then Infinite(neg) else Nan
               else Finite(neg, UnitsOf(Pow2(f.fracBits), e, m))
  {
    PackIsMagnitude(f, e, m);
    PackFields(f, e, m);
    DecodeSigned(f, neg, Pack(f, e, m));
  }

  lemma DecodeSigned(f: Format, neg: bool, mag: nat)
    requires mag < f.SignWeight()
    ensures var bits := (if neg then Pow2(f.expBits + f.fracBits) else 0) + mag;
            Magnitude(f, bits) == mag && SignBit(f, bits) == neg
  {
  }

  lemma UnitsScale(f: Format, e: nat, m: nat)
    ensures var p, b, units := f.fracBits, Pow2(f.expBits - 1) - 1, UnitsOf(Pow2(f.fracBits), e, m);
            if e == 0 then units * Pow2(b + p - 1) == One(f) * m
            else units * Pow2(b + p) == One(f) * ((Pow2(p) + m) * Pow2(e))
  {
    var p, b := f.fracBits, Pow2(f.expBits - 1) - 1;
    assert b + p == OneExp(f) + 1;
    ScaleOf(Pow2(p), e, m, OneExp(f));
  }

  lemma ScaleOf(w: nat, e: nat, m: nat, s: nat)
    ensures e == 0 ==> UnitsOf(w, e, m) * Pow2(s) == Pow2(s) * m
    ensures e > 0 ==> UnitsOf(w, e, m) * Pow2(s + 1) == Pow2(s) * ((w + m) * Pow2(e))
  {
    if e > 0 {
      NormalScale(w + m, e, s);
    }
  }

  lemma PackIsMagnitude(f: Format, e: nat, m: nat)
    requires e < Pow2(f.expBits) && m < Pow2(f.fracBits)
    ensures Pack(f, e, m) < f.SignWeight()
  {
    Pow2Add(f.expBits, f.fracBits);
    MultiplesApart(e, Pow2(f.expBits), Pow2(f.fracBits));
  }

  lemma NormalScale(mant: nat, e: nat, s: nat)
    requires e > 0
    ensures (mant * Pow2(e - 1)) * Pow2(s + 1) == Pow2(s) * (mant * Pow2(e))
  {
    MoveTwo(mant, Pow2(e - 1), Pow2(s));
  }

  lemma MoveTwo(a: nat, b: nat, c: nat)
    ensures (a * b) * (2 * c) == c * (a * (2 * b))
  {
  }

  /** The number 1.0: biased exponent zero, no fraction. */
  lemma OneMeaning(f: Format)
    ensures Decode(f, (Pow2(f.expBits - 1) - 1) * Pow2(f.fracBits)) == Finite(false, One(f))
  {
    var b, p := Pow2(f.expBits - 1) - 1, f.fracBits;
    assert Pow2(f.expBits) == 2 * Pow2(f.expBits - 1);
    DecodeMeaning(f, false, b, 0);
    var units := Decode(f, b * Pow2(p)).units;
    Pow2Add(p, b);
    assert units * Pow2(b + p) == One(f) * Pow2(b + p);
    SameFactor(units, One(f), Pow2(b + p));
  }

  lemma SameFactor(a: int, b: int, c: int)
    requires c > 0 && a * c == b * c
    ensures a == b
  {
    MultiplesApart(a, b, c);
    MultiplesApart(b, a, c);
  }

  /** ... in the two standard formats. */
  lemma OneBits(f: Float)
    ensures Decode(f, if IsF32(f) then 0x3F80_0000 else 0x3FF0_0000_0000_0000) == Finite(false, One(f))
  {
    OneMeaning(f);
    BitsOfOne(f);
  }

  lemma BitsOfOne(f: Float)
    ensures (Pow2(f.expBits - 1) - 1) * Pow2(f.fracBits) == if IsF32(f) then 0x3F80_0000 else 0x3FF0_0000_0000_0000
  {
    StandardWeights();
  }

  lemma StandardWeights()
    ensures Pow2(7) == 0x80 && Pow2(10) == 0x400 && Pow2(23) == 0x80_0000 && Pow2(52) == 0x10_0000_0000_0000
  {
    Pow2Values();
    Pow2Add(3, 7);
    Pow2Add(7, 16);
    Pow2Add(10, 10);
    Pow2Add(20, 32);
  }

  // ----- the order of magnitudes ----------------------------------------------------

  lemma NextFraction(w: nat, e: nat, m: nat)
    ensures UnitsOf(w, e, m) < UnitsOf(w, e, m + 1)
  {
    if e > 0 {
      MultiplesApart(w + m, w + m + 1, Pow2(e - 1));
    }
  }

  lemma NextExponent(w: nat, e: nat, m: nat)
    requires m < w
    ensures UnitsOf(w, e, m) < UnitsOf(w, e + 1, 0)
  {
    if e > 0 {
      MultiplesApart(w + m, w * 2, Pow2(e - 1));
      MulAssociative(w, 2, Pow2(e - 1));
    }
  }

  /** Consecutive patterns have strictly increasing values, across exponent boundaries too. */
  lemma UnitsStep(f: Format, mag: nat)
    ensures Units(f, mag) < Units(f, mag + 1)
  {
    var w := Pow2(f.fracBits);
    var e, m := DivMod(mag, w);
    if m + 1 < w {
      DivModUnique(mag + 1, w, e, m + 1);
      NextFraction(w, e, m);
    } else {
      NextField(mag, w, e, m);
      NextExponent(w, e, m);
    }
  }

  lemma NextField(mag: nat, w: nat, e: nat, m: nat)
    requires mag == e * w + m && m + 1 == w
    ensures (mag + 1) / w == e + 1 && (mag + 1) % w == 0
  {
    Distribute(e, 1, w);
    DivModUnique(mag + 1, w, e + 1, 0);
  }

  /** Magnitude patterns are ordered as the values they stand for. */
  lemma {:induction false} UnitsIncreasing(f: Format, a: nat, b: nat)
    requires a < b
    ensures Units(f, a) < Units(f, b)
    decreases b
  {
    UnitsStep(f, b - 1);
    if a < b - 1 {
      UnitsIncreasing(f, a, b - 1);
    }
  }

  /** A pattern is finite exactly when it lies below the pattern of infinity. */
  lemma FiniteBelowInf(f: Format, mag: nat)
    ensures ExpField(f, mag) < f.MaxExp() <==> mag < InfMag(f)
    ensures ExpField(f, mag) == f.MaxExp() && FracField(f, mag) == 0 <==> mag == InfMag(f)
  {
    DivBound(mag, Pow2(f.fracBits), f.MaxExp());
    if mag == InfMag(f) {
      DivModUnique(mag, Pow2(f.fracBits), f.MaxExp(), 0);
    }
  }
}
