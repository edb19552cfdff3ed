/** Powers of two and the few facts about division that the numeric modules rest on. */
module Powers {

  function Pow2(n: nat): (r: nat)
    ensures r >= 1
  {
    if n == 0 then 1 else 2 * Pow2(n - 1)
  }

  lemma {:induction false} Pow2Add(a: nat, b: nat)
    ensures Pow2(a + b) == Pow2(a) * Pow2(b)
  {
    if a > 0 {
      Pow2Add(a - 1, b);
      assert 2 * (Pow2(a - 1) * Pow2(b)) == (2 * Pow2(a - 1)) * Pow2(b);
    }
  }

  /** A multiple of `2^k` is a multiple of every smaller power. */
  lemma ShiftedOut(m: nat, k: nat, g: nat)
    requires g <= k
    ensures m * Pow2(k) == (m * Pow2(k - g)) * Pow2(g)
  {
    Pow2Add(k - g, g);
    MulAssociative(m, Pow2(k - g), Pow2(g));
  }

  lemma ScaledUp(n: nat, m: nat, k: nat, s: nat)
    requires n == m * Pow2(k)
    ensures m * Pow2(k + s) == n * Pow2(s)
  {
    Pow2Add(k, s);
    MulAssociative(m, Pow2(k), Pow2(s));
  }

  lemma {:induction false} Pow2Increasing(a: nat, b: nat)
    requires a < b
    ensures 2 * Pow2(a) <= Pow2(b)
    decreases b
  {
    if a + 1 < b {
      Pow2Increasing(a, b - 1);
    }
  }

  /** Comparing powers of two compares their exponents. */
  lemma Pow2Reflects(a: nat, b: nat)
    requires Pow2(a) < Pow2(b)
    ensures a < b
  {
    if b < a {
      Pow2Increasing(b, a);
    }
  }

  lemma Pow2Values()
    ensures Pow2(7) == 0x80 && Pow2(8) == 0x100
    ensures Pow2(15) == 0x8000 && Pow2(16) == 0x1_0000
    ensures Pow2(31) == 0x8000_0000 && Pow2(32) == 0x1_0000_0000
    ensures Pow2(63) == 0x8000_0000_0000_0000 && Pow2(64) == 0x1_0000_0000_0000_0000
  {
    assert Pow2(8) == 0x100;
    Pow2Add(8, 8);
    Pow2Add(16, 16);
    Pow2Add(32, 32);
  }

  function Distance(a: int, b: int): nat { if a < b then b - a else a - b }

  lemma MulAssociative(a: int, b: int, c: int)
    ensures a * (b * c) == (a * b) * c
  {
  }

  lemma Distribute(a: int, b: int, c: int)
    ensures (a + b) * c == a * c + b * c
  {
  }

  lemma MulMonotone(a: int, b: int, c: int)
    requires a <= b && 0 <= c
    ensures a * c <= b * c
  {
    assert (b - a) * c >= 0;
  }

  /** Multiples of `d` are at least `d` apart. */
  lemma MultiplesApart(a: int, b: int, d: int)
    requires 0 < d
    ensures a < b <==> a * d < b * d
    ensures a < b ==> a * d + d <= b * d
  {
    if a < b {
      MulMonotone(a + 1, b, d);
      assert (a + 1) * d == a * d + d;
    } else {
      MulMonotone(b, a, d);
    }
  }

  lemma DivMod(x: nat, d: nat) returns (q: nat, r: nat)
    requires 0 < d
    ensures x == q * d + r && r < d
    ensures q == x / d && r == x % d
  {
    q, r := x / d, x % d;
  }

  /** The quotient and the remainder are the only ones of their kind. */
  lemma DivModUnique(x: int, d: int, q: int, r: int)
    requires 0 < d && 0 <= r < d
    requires x == q * d + r
    ensures x / d == q && x % d == r
  {
    MultiplesApart(x / d, q, d);
    MultiplesApart(q, x / d, d);
  }

  /** Bounding the quotient bounds the dividend. */
  lemma DivBound(x: int, d: int, n: int)
    requires 0 < d
    ensures x / d < n <==> x < n * d
  {
    MultiplesApart(x / d, n, d);
    MultiplesApart(n, x / d, d);
  }

  lemma DivDiv(x: nat, a: nat, b: nat)
    requires 0 < a && 0 < b
    ensures 0 < a * b
    ensures x / (a * b) == (x / a) / b
    ensures x % (a * b) == x % a + a * ((x / a) % b)
  {
    var q, r := DivMod(x, a);
    var q', r' := DivMod(q, b);
    Nested(x, a, b, q', r', r);
    DivModUnique(x, a * b, q', a * r' + r);
  }

  lemma Nested(x: nat, a: nat, b: nat, q: nat, r': nat, r: nat)
    requires x == (q * b + r') * a + r && r < a && r' < b
    ensures x == q * (a * b) + (a * r' + r)
    ensures a * r' + r < a * b
  {
    Distribute(q * b, r', a);
    MulAssociative(q, b, a);
    MultiplesApart(r', b, a);
  }

  lemma ModMod(x: nat, a: nat, b: nat)
    requires 0 < a && 0 < b
    ensures 0 < a * b
    ensures (x % (a * b)) % a == x % a
    ensures (x % (a * b)) / a == (x / a) % b
  {
    DivDiv(x, a, b);
    var m := (x / a) % b;
    assert x % (a * b) == m * a + x % a;
    DivModUnique(x % (a * b), a, m, x % a);
  }

  /** The low bits of a shifted number are the shifted low bits. */
  lemma RemainderOfShifted(m: nat, k: nat, s: nat)
    requires k <= s
    ensures (m * Pow2(k)) % Pow2(s) == (m % Pow2(s - k)) * Pow2(k)
  {
    var g, p := Pow2(s - k), Pow2(k);
    Pow2Add(s - k, k);
    var q, r := DivMod(m, g);
    Distribute(q * g, r, p);
    MulAssociative(q, g, p);
    MultiplesApart(r, g, p);
    DivModUnique(m * p, g * p, q, r * p);
  }
}
