/** Minimum and maximum of floats (crates/core/src/value.rs) and the bit-level operators they meet
    (crates/core/src/nan_preserving_float.rs). */
module FloatMinMax {
  import opened Powers
  import opened FloatFormat

  /** `<` on floats: false as soon as a NaN takes part; the two zeros are not ordered. */
  predicate Less(x: FloatVal, y: FloatVal) {
    match (x, y)
    case (Finite(n, u), Finite(m, v)) => SignedUnits(n, u) < SignedUnits(m, v)
    case (Infinite(n), Finite(_, _)) => n
    case (Finite(_, _), Infinite(m)) => !m
    case (Infinite(n), Infinite(m)) => n && !m
    case (_, _) => false
  }

  /** `==` on floats: the two zeros are equal, a NaN equals nothing. */
  predicate Equal(x: FloatVal, y: FloatVal) {
    match (x, y)
    case (Finite(n, u), Finite(m, v)) => SignedUnits(n, u) == SignedUnits(m, v)
    case (Infinite(n), Infinite(m)) => n == m
    case (_, _) => false
  }

  /** Flipping the sign bit. */
  function Neg(f: Format, bits: nat): nat {
    if SignBit(f, bits) then bits - f.SignWeight() else bits + f.SignWeight()
  }

  /** The outcome of `min` or `max`: one of the operands, or the sum that propagates a NaN. */
  datatype Selected = Operand(bits: nat) | NanSum(a: nat, b: nat)

  function Min(f: Format, a: nat, b: nat): Selected {
    var x, y := Decode(f, a), Decode(f, b);
    if Less(x, y) then Operand(a)
    else if Less(y, x) then Operand(b)
    else if Equal(x, y) then
      if SignBit(f, a) && !SignBit(f, b) then Operand(a) else Operand(b)
    else NanSum(a, b)
  }

  function Max(f: Format, a: nat, b: nat): Selected {
    var x, y := Decode(f, a), Decode(f, b);
    if Less(y, x) then Operand(a)
    else if Less(x, y) then Operand(b)
    else if Equal(x, y) then
      if !SignBit(f, a) && SignBit(f, b) then Operand(a) else Operand(b)
    else NanSum(a, b)
  }

  // ----- the total order of non-NaN patterns -------------------------------------------

  /** The place of a pattern in the order that puts -0 just below +0. */
  function Key(f: Format, bits: nat): int {
    if SignBit(f, bits) then -1 - Magnitude(f, bits) else Magnitude(f, bits)
  }

  lemma KeyInjective(f: Format, a: nat, b: nat)
    requires Key(f, a) == Key(f, b)
    ensures a == b
  {
  }

  lemma UnitsOrder(f: Format, a: nat, b: nat)
    ensures Units(f, a) < Units(f, b) <==> a < b
    ensures Units(f, a) == 0 <==> a == 0
  {
    if a < b {
      UnitsIncreasing(f, a, b);
    } else if b < a {
      UnitsIncreasing(f, b, a);
    }
    ZeroUnits(f);
    if a > 0 {
      UnitsIncreasing(f, 0, a);
    }
  }

  lemma ZeroUnits(f: Format)
    ensures Units(f, 0) == 0
  {
    DivModUnique(0, Pow2(f.fracBits), 0, 0);
  }

  ghost predicate IsNumber(f: Format, bits: nat) {
    IsPattern(f, bits) && !Decode(f, bits).Nan?
  }

  lemma NumberShape(f: Format, bits: nat)
    requires IsNumber(f, bits)
    ensures var mag := Magnitude(f, bits);
            && mag <= InfMag(f)
            && Decode(f, bits) == if mag == InfMag(f) then Infinite(SignBit(f, bits))
                                  else Finite(SignBit(f, bits), Units(f, mag))
  {
    var mag := Magnitude(f, bits);
    FiniteBelowInf(f, mag);
    assert ExpField(f, mag) <= f.MaxExp() by {
      Pow2Add(f.expBits, f.fracBits);
      DivBound(mag, Pow2(f.fracBits), Pow2(f.expBits));
    }
  }

  /** Comparing numbers compares their keys, except that the two zeros count as equal. */
  lemma CompareByKey(f: Format, a: nat, b: nat)
    requires IsNumber(f, a) && IsNumber(f, b)
    ensures var zeros := Magnitude(f, a) == 0 && Magnitude(f, b) == 0;
            && (Less(Decode(f, a), Decode(f, b)) <==> Key(f, a) < Key(f, b) && !zeros)
            && (Equal(Decode(f, a), Decode(f, b)) <==> a == b || zeros)
  {
    var m, n := Magnitude(f, a), Magnitude(f, b);
    NumberShape(f, a);
    NumberShape(f, b);
    UnitsOrder(f, m, n);
    UnitsOrder(f, n, m);
    InfMagPositive(f);
  }

  lemma InfMagPositive(f: Format)
    ensures 0 < InfMag(f)
  {
    Pow2Increasing(0, f.expBits);
    MulMonotone(1, f.MaxExp(), Pow2(f.fracBits));
  }

  /** `min` is the meet of the total order and `max` its join, at the bit level: zeros included. */
  lemma MinMaxSelectByKey(f: Format, a: nat, b: nat)
    requires IsNumber(f, a) && IsNumber(f, b)
    ensures Min(f, a, b) == Operand(if Key(f, a) < Key(f, b) then a else b)
    ensures Max(f, a, b) == Operand(if Key(f, a) < Key(f, b) then b else a)
  {
    CompareByKey(f, a, b);
    CompareByKey(f, b, a);
    if Key(f, a) == Key(f, b) {
      KeyInjective(f, a, b);
    }
  }

  /** A NaN operand, and nothing else, leads to the sum of the operands, which propagates it. */
  lemma MinMaxOfNan(f: Format, a: nat, b: nat)
    requires IsPattern(f, a) && IsPattern(f, b)
    ensures Decode(f, a).Nan? || Decode(f, b).Nan? ==> Min(f, a, b) == NanSum(a, b) && Max(f, a, b) == NanSum(a, b)
    ensures Min(f, a, b).NanSum? <==> Decode(f, a).Nan? || Decode(f, b).Nan?
    ensures Max(f, a, b).NanSum? <==> Decode(f, a).Nan? || Decode(f, b).Nan?
  {
  }

  /** What the selected operand is, by the values: never greater (for `min`) or smaller (for `max`) than
      either operand, infinities included; and of two zeros the negative one (for `min`) or the
      positive one (for `max`). */
  lemma MinMaxMeaning(f: Format, a: nat, b: nat)
    requires IsNumber(f, a) && IsNumber(f, b)
    ensures Min(f, a, b).Operand? && Min(f, a, b).bits in {a, b}
    ensures Max(f, a, b).Operand? && Max(f, a, b).bits in {a, b}
    ensures var m := Min(f, a, b).bits; NotAbove(Decode(f, m), Decode(f, a)) && NotAbove(Decode(f, m), Decode(f, b))
    ensures var m := Max(f, a, b).bits; NotAbove(Decode(f, a), Decode(f, m)) && NotAbove(Decode(f, b), Decode(f, m))
    ensures Decode(f, a) in {Finite(false, 0), Finite(true, 0)} && Decode(f, b) in {Finite(false, 0), Finite(true, 0)} ==>
              && Decode(f, Min(f, a, b).bits).neg == (Decode(f, a).neg || Decode(f, b).neg)
              && Decode(f, Max(f, a, b).bits).neg == (Decode(f, a).neg && Decode(f, b).neg)
  {
    NumberShape(f, a);
    NumberShape(f, b);
  }

  /** The order of the extended numbers. */
  predicate NotAbove(x: FloatVal, y: FloatVal) {
    match (x, y)
    case (Infinite(neg), _) => neg || y == Infinite(false)
    case (_, Infinite(neg)) => !neg
    case (Finite(n, u), Finite(m, v)) => (if n then -(u as int) else u) <= (if m then -(v as int) else v)
    case _ => false
  }

  function MinOf(f: Format, a: nat, b: nat): (m: nat)
    requires IsNumber(f, a) && IsNumber(f, b)
    ensures m in {a, b} && Min(f, a, b) == Operand(m)
  {
    MinMaxSelectByKey(f, a, b);
    Min(f, a, b).bits
  }

  function MaxOf(f: Format, a: nat, b: nat): (m: nat)
    requires IsNumber(f, a) && IsNumber(f, b)
    ensures m in {a, b} && Max(f, a, b) == Operand(m)
  {
    MinMaxSelectByKey(f, a, b);
    Max(f, a, b).bits
  }

  /** The lattice laws, bit for bit. */
  lemma LatticeLaws(f: Format, a: nat, b: nat, c: nat)
    requires IsNumber(f, a) && IsNumber(f, b) && IsNumber(f, c)
    ensures MinOf(f, a, b) == MinOf(f, b, a) && MaxOf(f, a, b) == MaxOf(f, b, a)
    ensures MinOf(f, MinOf(f, a, b), c) == MinOf(f, a, MinOf(f, b, c))
    ensures MaxOf(f, MaxOf(f, a, b), c) == MaxOf(f, a, MaxOf(f, b, c))
    ensures MinOf(f, a, MaxOf(f, a, b)) == a && MaxOf(f, a, MinOf(f, a, b)) == a
  {
    SelectByKey(f, a, b);
    SelectByKey(f, b, a);
    SelectByKey(f, b, c);
    SelectByKey(f, MinOf(f, a, b), c);
    SelectByKey(f, a, MinOf(f, b, c));
    SelectByKey(f, MaxOf(f, a, b), c);
    SelectByKey(f, a, MaxOf(f, b, c));
    SelectByKey(f, a, MaxOf(f, a, b));
    SelectByKey(f, a, MinOf(f, a, b));
  }

  lemma SelectByKey(f: Format, a: nat, b: nat)
    requires IsNumber(f, a) && IsNumber(f, b)
    ensures MinOf(f, a, b) == if Key(f, a) < Key(f, b) then a else b
    ensures MaxOf(f, a, b) == if Key(f, a) < Key(f, b) then b else a
    ensures Key(f, a) == Key(f, b) ==> a == b
  {
    MinMaxSelectByKey(f, a, b);
  }

  lemma NegReversesKey(f: Format, a: nat)
    requires IsNumber(f, a)
    ensures IsNumber(f, Neg(f, a)) && Key(f, Neg(f, a)) == -1 - Key(f, a)
    ensures Neg(f, Neg(f, a)) == a
  {
  }

  /** max(a, b) = -min(-a, -b), bit for bit. */
  lemma MaxIsDualOfMin(f: Format, a: nat, b: nat)
    requires IsNumber(f, a) && IsNumber(f, b)
    ensures IsNumber(f, Neg(f, a)) && IsNumber(f, Neg(f, b))
    ensures MaxOf(f, a, b) == Neg(f, MinOf(f, Neg(f, a), Neg(f, b)))
  {
    NegReversesKey(f, a);
    NegReversesKey(f, b);
    SelectByKey(f, a, b);
    SelectByKey(f, Neg(f, a), Neg(f, b));
  }
}
