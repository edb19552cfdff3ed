/** Operands encoded as narrow immediates (crates/ir/src/immeditate.rs) and shift amounts
    (crates/ir/src/primitive.rs). */
module Immediates {
  import opened FloatFormat
  import opened FloatMinMax
  import opened Powers
  import opened Words
  import opened Wrappers

  // ----- integers ----------------------------------------------------------------------

  /** `i16::try_from`, `u16::try_from`, `i32::try_from` and `u32::try_from`, followed by the cast
      into the word that `AnyConst16` or `AnyConst32` holds. */
  function Narrow(bits: nat, signed: bool, value: int): Option<nat>
    requires bits > 0
  {
    var lo, hi := if signed then -(Pow2(bits - 1) as int) else 0, if signed then Pow2(bits - 1) else Pow2(bits);
    if lo <= value < hi then Some(Wrap(bits, value)) else None
  }

  /** The conversions back, which extend with the sign or with zeros. */
  function Widen(bits: nat, signed: bool, word: nat): int
    requires bits > 0
  {
    if signed then Signed(bits, word) else word
  }

  /** `try_from` on the non-zero integer types. */
  function NarrowNonZero(bits: nat, signed: bool, value: int): Option<nat>
    requires bits > 0 && value != 0
  {
    match Narrow(bits, signed, value)
    case None => None
    case Some(word) => if word == 0 then None else Some(word)
  }

  /** Narrowing succeeds exactly on the values some word widens to, decoding returns the value, and
      an immediate is zero only for zero. */
  lemma NarrowMeaning(bits: nat, signed: bool, value: int)
    requires bits > 0
    ensures Narrow(bits, signed, value).Some? <==> exists w: nat :: w < Pow2(bits) && Widen(bits, signed, w) == value
    ensures var n := Narrow(bits, signed, value);
            n.Some? ==> && n.value < Pow2(bits)
                        && Widen(bits, signed, n.value) == value
                        && (n.value == 0 <==> value == 0)
  {
    if value >= 0 && value < Pow2(bits) {
      DivModUnique(value, Pow2(bits), 0, value);
    } else if -(Pow2(bits) as int) <= value < 0 {
      DivModUnique(value, Pow2(bits), -1, value + Pow2(bits));
    }
    if Narrow(bits, signed, value).Some? {
      var w := Narrow(bits, signed, value).value;
      assert w < Pow2(bits) && Widen(bits, signed, w) == value;
    }
  }

  /** The same in numbers: the range of the narrow type, and the value modulo its width. */
  lemma NarrowRange(bits: nat, signed: bool, value: int)
    requires bits > 0
    ensures Narrow(bits, signed, value).Some? <==>
            if signed then -(Pow2(bits - 1) as int) <= value < Pow2(bits - 1) else 0 <= value < Pow2(bits)
    ensures Narrow(bits, signed, value).Some? ==> Narrow(bits, signed, value).value == value % Pow2(bits)
  {
  }

  /** ... and of the way back: a word stands for the number of that range congruent to it. */
  lemma WidenRange(bits: nat, signed: bool, word: nat)
    requires bits > 0 && word < Pow2(bits)
    ensures var v := Widen(bits, signed, word);
            && v % Pow2(bits) == word
            && if signed then -(Pow2(bits - 1) as int) <= v < Pow2(bits - 1) else 0 <= v < Pow2(bits)
  {
    if signed {
      WrapSigned(bits, word);
    } else {
      DivModUnique(word, Pow2(bits), 0, word);
    }
  }

  /** A non-zero value never loses its immediate to the non-zero check. */
  lemma NonZeroStaysNonZero(bits: nat, signed: bool, value: int)
    requires bits > 0 && value != 0
    ensures NarrowNonZero(bits, signed, value) == Narrow(bits, signed, value)
  {
    NarrowMeaning(bits, signed, value);
  }

  // ----- `f64` as a 32-bit immediate -----------------------------------------------------

  /** A pattern of one format and a pattern of another stand for the same number, sign included. */
  ghost predicate SameNumber(f: Format, a: nat, g: Format, b: nat)
    requires OneExp(g) <= OneExp(f)
  {
    && SignBit(f, a) == SignBit(g, b)
    && match (Decode(f, a), Decode(g, b))
       case (Infinite(_), Infinite(_)) => true
       case (Finite(_, u), Finite(_, v)) => u == v * Pow2(OneExp(f) - OneExp(g))
       case (_, _) => false
  }

  /** What is known of the hardware casts: widening is exact, narrowing returns a number the narrow
      format holds, and neither turns a NaN into a number. */
  ghost predicate AreCasts(f: Format, g: Format, widen: nat -> nat, narrow: nat -> nat)
    requires OneExp(g) <= OneExp(f)
  {
    && (forall b {:trigger widen(b)} :: IsPattern(g, b) ==>
          IsPattern(f, widen(b))
          && if Decode(g, b).Nan? then Decode(f, widen(b)).Nan? else SameNumber(f, widen(b), g, b))
    && (forall a {:trigger narrow(a)} :: IsPattern(f, a) ==> IsPattern(g, narrow(a)))
    && (forall a, b :: IsPattern(f, a) && IsPattern(g, b) && SameNumber(f, a, g, b) ==> SameNumber(f, a, g, narrow(a)))
  }

  ghost predicate Holds(g: Format, b: nat, f: Format, a: nat)
    requires OneExp(g) <= OneExp(f)
  {
    IsPattern(f, a) && IsPattern(g, b) && SameNumber(f, a, g, b)
  }

  /** The wide format holds all numbers of the narrow one. */
  predicate IsWider(f: Format, g: Format) {
    && OneExp(g) <= OneExp(f) && g.fracBits <= f.fracBits
    && g.MaxExp() + OneExp(f) - OneExp(g) < f.MaxExp()
  }

  lemma DoubleIsWider(f: Float, g: Float)
    requires IsF64(f) && IsF32(g)
    ensures IsWider(f, g)
  {
    StandardFormats(f);
    StandardFormats(g);
  }

  lemma WithSign(f: Format, mag: nat, neg: bool) returns (a: nat)
    requires mag < f.SignWeight()
    ensures IsPattern(f, a) && Magnitude(f, a) == mag && SignBit(f, a) == neg
  {
    a := if neg then mag + f.SignWeight() else mag;
  }

  lemma InfMagIsMagnitude(f: Format)
    ensures InfMag(f) + 1 < f.SignWeight()
  {
    Pow2Add(f.expBits, f.fracBits);
    Distribute(f.MaxExp(), 1, Pow2(f.fracBits));
    Pow2Increasing(0, f.fracBits);
  }

  lemma NanExists(f: Format) returns (a: nat)
    ensures IsPattern(f, a) && Decode(f, a).Nan?
  {
    a := InfMag(f) + 1;
    InfMagIsMagnitude(f);
    Pow2Increasing(0, f.fracBits);
    DivModUnique(a, Pow2(f.fracBits), f.MaxExp(), 1);
  }

  /** A magnitude of the narrow format, in the wide one. */
  lemma WideMagnitude(f: Format, g: Format, mag: nat) returns (wide: nat)
    requires IsWider(f, g) && mag < InfMag(g)
    ensures wide < InfMag(f) && Units(f, wide) == Units(g, mag) * Pow2(OneExp(f) - OneExp(g))
  {
    var d := OneExp(f) - OneExp(g);
    var e, m, w := ExpField(g, mag), FracField(g, mag), Pow2(g.fracBits);
    FiniteBelowInf(g, mag);
    if g.fracBits < f.fracBits {
      Pow2Increasing(g.fracBits + 1, f.fracBits + 1);
    }
    var mant, k := if e == 0 then m else w + m, if e == 0 then 0 else e - 1;
    wide := Representable(f, mant, k + d);
    ScaledUp(Units(g, mag), mant, k, d);
  }

  lemma WideningExists(f: Format, g: Format, b: nat) returns (a: nat)
    requires IsWider(f, g) && IsNumber(g, b)
    ensures Holds(g, b, f, a)
  {
    var mag, neg := Magnitude(g, b), SignBit(g, b);
    NumberShape(g, b);
    InfMagIsMagnitude(f);
    var wide := InfMag(f);
    if mag < InfMag(g) {
      wide := WideMagnitude(f, g, mag);
    }
    a := WithSign(f, wide, neg);
    NumberIsFinite(f, a);
  }

  lemma NumberIsFinite(f: Format, a: nat)
    requires Magnitude(f, a) <= InfMag(f)
    ensures Decode(f, a) == if Magnitude(f, a) == InfMag(f) then Infinite(SignBit(f, a))
                            else Finite(SignBit(f, a), Units(f, Magnitude(f, a)))
  {
    FiniteBelowInf(f, Magnitude(f, a));
  }

  ghost function WideCast(f: Format, g: Format, b: nat): nat
    requires OneExp(g) <= OneExp(f)
  {
    if exists a: nat :: Holds(g, b, f, a) then
      var a: nat :| Holds(g, b, f, a); a
    else if exists a: nat :: IsPattern(f, a) && Decode(f, a).Nan? then
      var a: nat :| IsPattern(f, a) && Decode(f, a).Nan?; a
    else 0
  }

  ghost function NarrowCast(f: Format, g: Format, a: nat): nat
    requires OneExp(g) <= OneExp(f)
  {
    if exists b: nat :: Holds(g, b, f, a) then var b: nat :| Holds(g, b, f, a); b else 0
  }

  /** The assumptions about the casts can be met. */
  lemma CastsExist(f: Format, g: Format)
    requires IsWider(f, g)
    ensures AreCasts(f, g, b => WideCast(f, g, b), a => NarrowCast(f, g, a))
  {
    forall b | IsPattern(g, b)
      ensures IsPattern(f, WideCast(f, g, b))
      ensures if Decode(g, b).Nan? then Decode(f, WideCast(f, g, b)).Nan? else SameNumber(f, WideCast(f, g, b), g, b)
    {
      if Decode(g, b).Nan? {
        var _ := NanExists(f);
      } else {
        var _ := WideningExists(f, g, b);
      }
    }
    forall a | IsPattern(f, a)
      ensures IsPattern(g, NarrowCast(f, g, a))
      ensures forall b :: Holds(g, b, f, a) ==> SameNumber(f, a, g, NarrowCast(f, g, a))
    {
    }
    forall a, b | IsPattern(f, a) && IsPattern(g, b) && SameNumber(f, a, g, b)
      ensures SameNumber(f, a, g, NarrowCast(f, g, a))
    {
      assert Holds(g, b, f, a);
    }
  }

  /** `AnyConst32::try_from(f64)`: accepted when casting down and up again restores the bits. */
  function NarrowFloat(widen: nat -> nat, narrow: nat -> nat, bits: nat): Option<nat> {
    var truncated := narrow(bits);
    if bits != widen(truncated) then None else Some(truncated)
  }

  /** A number has one pattern. */
  lemma SameNumberUnique(f: Format, a: nat, a': nat, g: Format, b: nat)
    requires OneExp(g) <= OneExp(f)
    requires IsNumber(f, a) && IsNumber(f, a')
    requires SameNumber(f, a, g, b) && SameNumber(f, a', g, b)
    ensures a == a'
  {
    NumberShape(f, a);
    NumberShape(f, a');
    UnitsOrder(f, Magnitude(f, a), Magnitude(f, a'));
    UnitsOrder(f, Magnitude(f, a'), Magnitude(f, a));
  }

  /** A number is accepted exactly when the narrow format holds it, and decoding restores it. A NaN is
      accepted only if decoding restores its bits, and then as a NaN. */
  lemma NarrowFloatMeaning(f: Format, g: Format, widen: nat -> nat, narrow: nat -> nat, bits: nat)
    requires OneExp(g) <= OneExp(f) && AreCasts(f, g, widen, narrow)
    requires IsPattern(f, bits)
    ensures !Decode(f, bits).Nan? ==>
              (NarrowFloat(widen, narrow, bits).Some? <==> exists b :: IsPattern(g, b) && SameNumber(f, bits, g, b))
    ensures var n := NarrowFloat(widen, narrow, bits);
            n.Some? ==>
              && IsPattern(g, n.value) && widen(n.value) == bits
              && if Decode(f, bits).Nan? then Decode(g, n.value).Nan? else SameNumber(f, bits, g, n.value)
  {
    var t := narrow(bits);
    assert IsPattern(g, t);
    if Decode(f, bits).Nan? {
      NanStaysNan(f, g, widen, t);
    } else {
      NarrowNumber(f, g, widen, narrow, bits);
    }
  }

  /** What widens to a NaN is a NaN. */
  lemma NanStaysNan(f: Format, g: Format, widen: nat -> nat, b: nat)
    requires OneExp(g) <= OneExp(f) && IsPattern(g, b)
    requires if Decode(g, b).Nan? then Decode(f, widen(b)).Nan? else SameNumber(f, widen(b), g, b)
    ensures Decode(f, widen(b)).Nan? <==> Decode(g, b).Nan?
  {
  }

  lemma NarrowNumber(f: Format, g: Format, widen: nat -> nat, narrow: nat -> nat, bits: nat)
    requires OneExp(g) <= OneExp(f) && AreCasts(f, g, widen, narrow)
    requires IsNumber(f, bits)
    ensures NarrowFloat(widen, narrow, bits).Some? <==> exists b :: IsPattern(g, b) && SameNumber(f, bits, g, b)
    ensures var n := NarrowFloat(widen, narrow, bits); n.Some? ==> SameNumber(f, bits, g, n.value)
  {
    var t := narrow(bits);
    if bits == widen(t) {
      assert SameNumber(f, bits, g, t);
    }
    forall b | IsPattern(g, b) && SameNumber(f, bits, g, b)
      ensures bits == widen(t)
    {
      assert SameNumber(f, bits, g, t);
      assert SameNumber(f, widen(t), g, t);
      SameNumberUnique(f, bits, widen(t), g, t);
    }
  }

  /** An `f64` number is kept in 32 bits exactly if `f32` holds it: with the casts that exist between
      the two formats. */
  lemma DoubleInSingle(f: Float, g: Float, bits: nat)
    requires IsF64(f) && IsF32(g) && IsNumber(f, bits)
    ensures IsWider(f, g)
    ensures var n := NarrowFloat(b => WideCast(f, g, b), a => NarrowCast(f, g, a), bits);
            && (n.Some? <==> exists b :: IsPattern(g, b) && SameNumber(f, bits, g, b))
            && (n.Some? ==> WideCast(f, g, n.value) == bits)
  {
    DoubleIsWider(f, g);
    CastsExist(f, g);
    NarrowFloatMeaning(f, g, b => WideCast(f, g, b), a => NarrowCast(f, g, a), bits);
  }

  // ----- shift amounts -------------------------------------------------------------------

  /** Rust's `%`, whose result has the sign of the dividend. */
  function Remainder(v: int, n: nat): int
    requires n > 0
  {
    if v >= 0 then v % n else -((-v) % n)
  }

  /** The widths of the shifted integers: 32 and 64, and all that is used of them. */
  predicate IsWidth(width: nat) {
    width > 1 && 0x1_0000_0000 % width == 0
  }

  lemma IntegerWidths()
    ensures IsWidth(32) && IsWidth(64)
  {
  }

  /** `ShiftAmount::new` for integers of `width` bits. */
  function ShiftAmount(width: nat, v: int): Option<int>
    requires IsWidth(width)
  {
    var value := Remainder(v, width);
    if value == 0 then None else Some(value)
  }

  datatype ShiftOp = Shl | ShrS | ShrU | Rotl | Rotr

  /** The number of places an operand asks for. Masking with `width - 1` keeps the residue modulo
      `width`; the rotations cast to `u32` and rotate modulo `width`. */
  function Places(width: nat, op: ShiftOp, k: int): (n: nat)
    requires IsWidth(width)
    ensures n < width
  {
    if op.Rotl? || op.Rotr? then k % 0x1_0000_0000 % width else k % width
  }

  /** Rotating left by `n` places: what leaves at the top enters at the bottom. */
  function RotateLeft(width: nat, x: nat, n: nat): nat
    requires n <= width
  {
    Wrap(width, x * Pow2(n)) + Shr(x, width - n)
  }

  /** The arithmetic shift: dividing rounds down, as the shift does. */
  function ShrSigned(width: nat, x: nat, n: nat): nat
    requires width > 0
  {
    Wrap(width, Signed(width, x) / Pow2(n))
  }

  /** Moving a word `x` of `width` bits by `n` places. */
  function Move(width: nat, op: ShiftOp, x: nat, n: nat): nat
    requires n < width
  {
    match op
    case Shl => Wrap(width, x * Pow2(n))
    case ShrU => Shr(x, n)
    case ShrS => ShrSigned(width, x, n)
    case Rotl => RotateLeft(width, x, n)
    case Rotr => RotateLeft(width, x, if n == 0 then 0 else width - n)
  }

  function Apply(width: nat, op: ShiftOp, x: nat, k: int): nat
    requires IsWidth(width)
  {
    Move(width, op, x, Places(width, op, k))
  }

  /** Every operation moves by the residue of its operand modulo the width, negative or not. */
  lemma PlacesAreResidue(width: nat, op: ShiftOp, k: int)
    requires IsWidth(width)
    ensures Places(width, op, k) == k % width
  {
    var m, q, w := 0x1_0000_0000 / width, k / 0x1_0000_0000, k % 0x1_0000_0000;
    assert q * (m * width) == (q * m) * width by { MulAssociative(q, m, width); }
    Distribute(q * m, w / width, width);
    DivModUnique(k, width, q * m + w / width, w % width);
  }

  lemma RemainderResidue(v: int, n: nat)
    requires n > 0
    ensures Remainder(v, n) % n == v % n
    ensures Remainder(v, n) == 0 <==> v % n == 0
  {
    if v < 0 {
      NegativeResidue(-v, n);
    } else {
      DivModUnique(v % n, n, 0, v % n);
    }
  }

  lemma NegativeResidue(u: nat, n: nat)
    requires n > 0
    ensures (-(u % n)) % n == (-(u as int)) % n
    ensures u % n == 0 <==> (-(u as int)) % n == 0
  {
    var q, r := u / n, u % n;
    if r == 0 {
      DivModUnique(-(u as int), n, -q, 0);
      DivModUnique(0, n, 0, 0);
    } else {
      Distribute(-q, -1, n);
      DivModUnique(-(u as int), n, -q - 1, n - r);
      DivModUnique(-r, n, -1, n - r);
    }
  }

  /** Storing the amount changes no shift and no rotation, and the amount fits 16 bits. */
  lemma ShiftAmountKeepsMeaning(width: nat, op: ShiftOp, x: nat, v: int)
    requires IsWidth(width) && ShiftAmount(width, v).Some?
    ensures Apply(width, op, x, ShiftAmount(width, v).value) == Apply(width, op, x, v)
    ensures -(width as int) < ShiftAmount(width, v).value < width
  {
    RemainderResidue(v, width);
    PlacesAreResidue(width, op, v);
    PlacesAreResidue(width, op, Remainder(v, width));
  }

  /** The stored amount is the truncated remainder: congruent to the operand, smaller than the width and
      of the operand's sign. */
  lemma ShiftAmountValue(width: nat, v: int)
    requires IsWidth(width) && ShiftAmount(width, v).Some?
    ensures var amount := ShiftAmount(width, v).value;
            && (if v >= 0 then 0 < amount < width else -(width as int) < amount < 0)
            && amount % width == v % width
  {
    RemainderResidue(v, width);
  }

  /** There is no amount to store exactly when the operation leaves every word alone. */
  lemma NoShiftAmountIffNoOp(width: nat, op: ShiftOp, v: int)
    requires IsWidth(width)
    ensures ShiftAmount(width, v) == None
            <==> forall x: nat | x < Pow2(width) :: Apply(width, op, x, v) == x
  {
    RemainderResidue(v, width);
    PlacesAreResidue(width, op, v);
    if v % width == 0 {
      forall x: nat | x < Pow2(width)
        ensures Apply(width, op, x, v) == x
      {
        MoveByZero(width, op, x);
      }
    } else {
      Pow2Increasing(0, width);
      OneMoves(width, op, v % width);
      assert Apply(width, op, 1, v) != 1;
    }
  }

  /** Both properties for the two integer types. */
  lemma ShiftAmountOfWords(width: nat, op: ShiftOp, v: int)
    requires width in {32, 64}
    ensures IsWidth(width)
    ensures ShiftAmount(width, v) == None <==> forall x: nat | x < Pow2(width) :: Apply(width, op, x, v) == x
    ensures ShiftAmount(width, v).Some? ==>
              forall x: nat :: Apply(width, op, x, ShiftAmount(width, v).value) == Apply(width, op, x, v)
  {
    IntegerWidths();
    NoShiftAmountIffNoOp(width, op, v);
    if ShiftAmount(width, v).Some? {
      forall x: nat
        ensures Apply(width, op, x, ShiftAmount(width, v).value) == Apply(width, op, x, v)
      {
        ShiftAmountKeepsMeaning(width, op, x, v);
      }
    }
  }

  lemma MoveByZero(width: nat, op: ShiftOp, x: nat)
    requires width > 0 && x < Pow2(width)
    ensures Move(width, op, x, 0) == x
  {
    DivModUnique(x, Pow2(width), 0, x);
    assert Pow2(0) == 1;
    WrapSigned(width, x);
  }

  lemma OneMoves(width: nat, op: ShiftOp, n: nat)
    requires 0 < n < width
    ensures Move(width, op, 1, n) != 1
  {
    PowerBelow(n, width);
    PowerBelow(width - n, width);
    match op
    case ShrS =>
      Pow2Increasing(0, width - 1);
      assert Signed(width, 1) == 1;
      DivModUnique(0, Pow2(width), 0, 0);
    case _ =>
  }

  lemma PowerBelow(n: nat, width: nat)
    requires 0 < n < width
    ensures 2 <= Pow2(n) && Wrap(width, Pow2(n)) == Pow2(n) && Shr(1, n) == 0
  {
    Pow2Increasing(0, n);
    Pow2Increasing(n, width);
    DivModUnique(Pow2(n), Pow2(width), 0, Pow2(n));
    DivModUnique(1, Pow2(n), 0, 1);
  }
}
