/** Shifts and rotations, bit by bit: the meaning given by section 4.3.2 of the WebAssembly Core
    Specification (operations of crates/core/src/untyped.rs). */
module ShiftBits {
  import opened Immediates
  import opened Powers
  import opened Words

  /** The bit of weight 2^j. */
  function Bit(x: nat, j: nat): nat { x / Pow2(j) % 2 }

  lemma BitOfEven(a: nat, k: nat)
    requires k > 0
    ensures (a * Pow2(k)) % 2 == 0
  {
    var g := Pow2(k - 1);
    assert a * (2 * g) == 2 * (a * g);
  }

  /** Cutting a word to its width keeps its bits. */
  lemma BitOfWrap(width: nat, x: nat, j: nat)
    requires j < width
    ensures Bit(Wrap(width, x), j) == Bit(x, j)
  {
    Pow2Add(j, width - j);
    ModMod(x, Pow2(j), Pow2(width - j));
    ModMod(x / Pow2(j), 2, Pow2(width - j - 1));
  }

  lemma BitOfProduct(x: nat, n: nat, j: nat)
    ensures Bit(x * Pow2(n), j) == if j < n then 0 else Bit(x, j - n)
  {
    if j < n {
      ShiftedOut(x, n, j);
      DivModUnique(x * Pow2(n), Pow2(j), x * Pow2(n - j), 0);
      BitOfEven(x, n - j);
    } else {
      Pow2Add(n, j - n);
      DivDiv(x * Pow2(n), Pow2(n), Pow2(j - n));
      DivModUnique(x * Pow2(n), Pow2(n), x, 0);
    }
  }

  lemma BitOfShr(x: nat, n: nat, j: nat)
    ensures Bit(Shr(x, n), j) == Bit(x, j + n)
  {
    Pow2Add(n, j);
    DivDiv(x, Pow2(n), Pow2(j));
  }

  lemma BitAbove(x: nat, width: nat, j: nat)
    requires x < Pow2(width) && width <= j
    ensures Bit(x, j) == 0
  {
    if width < j {
      Pow2Increasing(width, j);
    }
    DivModUnique(x, Pow2(j), 0, x);
  }

  lemma SumQuotient(h: nat, q: nat, r: nat, p: nat)
    requires r < p
    ensures (h * p + (q * p + r)) / p == h + q
  {
    Distribute(h, q, p);
    DivModUnique(h * p + (q * p + r), p, h + q, r);
  }

  lemma EvenPlus(h: nat, q: nat)
    requires h % 2 == 0
    ensures (h + q) % 2 == q % 2
  {
  }

  lemma LowBit(a: nat, b: nat, n: nat, j: nat)
    requires j < n
    ensures Bit(a * Pow2(n) + b, j) == Bit(b, j)
  {
    var h := a * Pow2(n - j);
    var q, r := DivMod(b, Pow2(j));
    ShiftedOut(a, n, j);
    SumQuotient(h, q, r, Pow2(j));
    BitOfEven(a, n - j);
    EvenPlus(h, q);
  }

  lemma HighBit(a: nat, b: nat, n: nat, j: nat)
    requires b < Pow2(n) && n <= j
    ensures Bit(a * Pow2(n) + b, j) == Bit(a, j - n)
  {
    DivModUnique(a * Pow2(n) + b, Pow2(n), a, b);
    Pow2Add(n, j - n);
    DivDiv(a * Pow2(n) + b, Pow2(n), Pow2(j - n));
  }

  /** Two numbers side by side: the low one below 2^n, the high one a multiple of it. */
  lemma BitOfSum(a: nat, b: nat, n: nat, j: nat)
    requires b < Pow2(n)
    ensures Bit(a * Pow2(n) + b, j) == if j < n then Bit(b, j) else Bit(a, j - n)
  {
    if j < n {
      LowBit(a, b, n, j);
    } else {
      HighBit(a, b, n, j);
    }
  }

  lemma OnesQuotient(x: nat, h: nat, p: nat)
    requires h > 0 && p > 0 && x == (2 * h) * p
    ensures x > 0 && (x - 1) / p % 2 == 1
  {
    MultiplesApart(0, 2 * h, p);
    Distribute(2 * h, -1, p);
    DivModUnique(x - 1, p, 2 * h - 1, p - 1);
  }

  /** All bits below 2^n are set in 2^n - 1. */
  lemma BitOfOnes(n: nat, j: nat)
    requires j < n
    ensures Bit(Pow2(n) - 1, j) == 1
  {
    Pow2Add(n - j, j);
    OnesQuotient(Pow2(n), Pow2(n - j - 1), Pow2(j));
  }

  lemma TopBit(width: nat, x: nat)
    requires width > 0 && x < Pow2(width)
    ensures Bit(x, width - 1) == if x < Pow2(width - 1) then 0 else 1
  {
    if x < Pow2(width - 1) {
      DivModUnique(x, Pow2(width - 1), 0, x);
    } else {
      DivModUnique(x, Pow2(width - 1), 1, x - Pow2(width - 1));
    }
  }

  /** Shifting a negative word to the right sets the bits that become free. */
  lemma NegativeShift(width: nat, x: nat, n: nat)
    requires n < width && Pow2(width - 1) <= x < Pow2(width)
    ensures Shr(x, n) < Pow2(width - n)
    ensures ShrSigned(width, x, n) == (Pow2(n) - 1) * Pow2(width - n) + Shr(x, n)
  {
    Pow2Add(width - n, n);
    NegativeQuotient(x, Pow2(width), Pow2(n), Pow2(width - n));
  }

  lemma NegativeQuotient(x: nat, w: nat, p: nat, g: nat)
    requires p > 0 && g > 0 && w == g * p && x < w
    ensures x / p < g && ((x - w) / p) % w == (p - 1) * g + x / p
  {
    DivBound(x, p, g);
    FloorBelowZero(x, p, g);
    Distribute(p, -1, g);
    MultiplesApart(0, g, p);
    NegativeWrap(x / p, g, w, (p - 1) * g + x / p);
  }

  lemma FloorBelowZero(x: nat, p: nat, g: nat)
    requires p > 0
    ensures (x - g * p) / p == x / p - g
  {
    var q, r := DivMod(x, p);
    Distribute(q, -(g as int), p);
    DivModUnique(x - g * p, p, q - g, r);
  }

  lemma NegativeWrap(q: nat, g: nat, w: nat, v: nat)
    requires q < g <= w && v == w + q - g
    ensures (q - g) % w == v
  {
    DivModUnique(q - g, w, -1, v);
  }

  lemma PositiveShiftBit(width: nat, x: nat, n: nat, j: nat)
    requires n < width && j < width && x < Pow2(width - 1)
    ensures Bit(ShrSigned(width, x, n), j) == if j + n < width then Bit(x, j + n) else 0
  {
    BitOfShr(x, n, j);
    BitOfWrap(width, Shr(x, n), j);
    if width <= j + n {
      BitAbove(x, width - 1, j + n);
    }
  }

  lemma NegativeShiftBit(width: nat, x: nat, n: nat, j: nat)
    requires n < width && j < width && Pow2(width - 1) <= x < Pow2(width)
    ensures Bit(ShrSigned(width, x, n), j) == if j + n < width then Bit(x, j + n) else 1
  {
    BitOfShr(x, n, j);
    NegativeShift(width, x, n);
    BitOfSum(Pow2(n) - 1, Shr(x, n), width - n, j);
    if width <= j + n {
      BitOfOnes(n, j - (width - n));
    }
  }

  lemma ShrSignedBit(width: nat, x: nat, n: nat, j: nat)
    requires n < width && j < width && x < Pow2(width)
    ensures Bit(ShrSigned(width, x, n), j) == Bit(x, if j + n < width then j + n else width - 1)
  {
    TopBit(width, x);
    if x < Pow2(width - 1) {
      PositiveShiftBit(width, x, n, j);
    } else {
      NegativeShiftBit(width, x, n, j);
    }
  }

  lemma RotateLeftBit(width: nat, x: nat, n: nat, j: nat)
    requires n <= width && j < width && x < Pow2(width)
    ensures Bit(RotateLeft(width, x, n), j) == Bit(x, if j < n then j + width - n else j - n)
  {
    RemainderOfShifted(x, n, width);
    Pow2Add(n, width - n);
    DivBound(x, Pow2(width - n), Pow2(n));
    BitOfSum(x % Pow2(width - n), Shr(x, width - n), n, j);
    if j < n {
      BitOfShr(x, width - n, j);
    } else {
      BitOfWrap(width - n, x, j - n);
    }
  }

  lemma ShlBit(width: nat, x: nat, n: nat, j: nat)
    requires j < width
    ensures Bit(Wrap(width, x * Pow2(n)), j) == if j < n then 0 else Bit(x, j - n)
  {
    BitOfWrap(width, x * Pow2(n), j);
    BitOfProduct(x, n, j);
  }

  lemma ShrBit(width: nat, x: nat, n: nat, j: nat)
    requires x < Pow2(width)
    ensures Bit(Shr(x, n), j) == if j + n < width then Bit(x, j + n) else 0
  {
    BitOfShr(x, n, j);
    if width <= j + n {
      BitAbove(x, width, j + n);
    }
  }

  /** The `j`-th bit after moving a word by `n` places: shifts bring in zeros or copies of the sign,
      rotations what leaves at the other end. */
  function MovedBit(width: nat, op: ShiftOp, x: nat, n: nat, j: nat): nat
    requires n < width && j < width
  {
    match op
    case Shl => if j < n then 0 else Bit(x, j - n)
    case ShrU => if j + n < width then Bit(x, j + n) else 0
    case ShrS => Bit(x, if j + n < width then j + n else width - 1)
    case Rotl => Bit(x, if j < n then j + width - n else j - n)
    case Rotr => Bit(x, if j + n < width then j + n else j + n - width)
  }

  /** What every shift and rotation by `n` places does to every bit. */
  lemma MoveMeaning(width: nat, op: ShiftOp, x: nat, n: nat, j: nat)
    requires n < width && j < width && x < Pow2(width)
    ensures Bit(Move(width, op, x, n), j) == MovedBit(width, op, x, n, j)
  {
    match op
    case Shl => ShlBit(width, x, n, j);
    case ShrU => ShrBit(width, x, n, j);
    case ShrS => ShrSignedBit(width, x, n, j);
    case Rotl => RotateLeftBit(width, x, n, j);
    case Rotr => RotateRightBit(width, x, n, j);
  }

  lemma RotateRightBit(width: nat, x: nat, n: nat, j: nat)
    requires n < width && j < width && x < Pow2(width)
    ensures Bit(Move(width, Rotr, x, n), j) == Bit(x, if j + n < width then j + n else j + n - width)
  {
    RotateLeftBit(width, x, if n == 0 then 0 else width - n, j);
  }

  /** ... and by any operand: the places are its residue modulo the width. */
  lemma ApplyMeaning(width: nat, op: ShiftOp, x: nat, k: int, j: nat)
    requires IsWidth(width) && j < width && x < Pow2(width)
    ensures Bit(Apply(width, op, x, k), j) == MovedBit(width, op, x, k % width, j)
  {
    PlacesAreResidue(width, op, k);
    MoveMeaning(width, op, x, Places(width, op, k), j);
  }
}
