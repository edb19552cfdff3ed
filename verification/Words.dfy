/** Machine words, their two's-complement reading and their little-endian bytes. */
module Words {
  import opened Powers

  type U8 = x: int | 0 <= x < 0x100
  type U32 = x: int | 0 <= x < 0x1_0000_0000
  type U64 = x: int | 0 <= x < 0x1_0000_0000_0000_0000
  type I16 = x: int | -0x8000 <= x < 0x8000
  type U16 = x: int | 0 <= x < 0x1_0000
  type I32 = x: int | -0x8000_0000 <= x < 0x8000_0000

  /** The low `bits` bits of an integer, as Rust's `as` casts keep them. */
  function Wrap(bits: nat, x: int): (r: nat)
    ensures r < Pow2(bits)
  {
    x % Pow2(bits)
  }

  /** `as u32`. */
  function ToU32(x: nat): U32 { x % 0x1_0000_0000 }

  /** A logical right shift. */
  function Shr(x: nat, bits: nat): nat {
    DivBound(x, Pow2(bits), 0);
    x / Pow2(bits)
  }

  /** The two's-complement reading of a word of `bits` bits. */
  function Signed(bits: nat, x: nat): int
    requires bits > 0
  {
    if x < Pow2(bits - 1) then x else x - Pow2(bits)
  }

  /** Reinterpreting a word as signed and casting it back loses nothing. */
  lemma WrapSigned(bits: nat, x: nat)
    requires bits > 0 && x < Pow2(bits)
    ensures Wrap(bits, Signed(bits, x)) == x
    ensures 0 <= Signed(bits, x) + Pow2(bits - 1) < Pow2(bits)
  {
    if x < Pow2(bits - 1) {
      DivModUnique(x, Pow2(bits), 0, x);
    } else {
      DivModUnique(x - Pow2(bits), Pow2(bits), -1, x);
    }
  }

  /** `to_le_bytes`: the `n` low bytes of `v`, least significant first. */
  function ToLe(v: nat, n: nat): (bs: seq<U8>)
    ensures |bs| == n
  {
    if n == 0 then [] else [v % 0x100] + ToLe(v / 0x100, n - 1)
  }

  /** `from_le_bytes`. */
  function FromLe(bs: seq<U8>): (v: nat)
    ensures v < Pow2(8 * |bs|)
  {
    if bs == [] then 0
    else
      assert Pow2(8 * |bs|) == 0x100 * Pow2(8 * |bs[1..]|) by { Pow2Byte(|bs| - 1); }
      bs[0] + 0x100 * FromLe(bs[1..])
  }

  lemma Pow2Byte(n: nat)
    ensures Pow2(8 * (n + 1)) == 0x100 * Pow2(8 * n)
  {
    Pow2Add(8, 8 * n);
    Pow2Values();
  }

  /** Decoding the bytes of `v` yields `v` cut to their width. */
  lemma {:induction false} FromToLe(v: nat, n: nat)
    ensures FromLe(ToLe(v, n)) == v % Pow2(8 * n)
  {
    if n > 0 {
      FromToLe(v / 0x100, n - 1);
      Pow2Byte(n - 1);
      DivDiv(v, 0x100, Pow2(8 * (n - 1)));
      assert ToLe(v, n)[1..] == ToLe(v / 0x100, n - 1);
    }
  }

  /** Encoding what some bytes decode to yields those bytes. */
  lemma {:induction false} ToFromLe(bs: seq<U8>)
    ensures ToLe(FromLe(bs), |bs|) == bs
  {
    if bs != [] {
      ToFromLe(bs[1..]);
      DivModUnique(FromLe(bs), 0x100, FromLe(bs[1..]), bs[0]);
    }
  }

  /** A run of `k` bytes inside an encoding is the encoding of the shifted value. */
  lemma {:induction false} ToLeSlice(v: nat, n: nat, i: nat, k: nat)
    requires i + k <= n
    ensures ToLe(v, n)[i..i + k] == ToLe(Shr(v, 8 * i), k)
    decreases n, k
  {
    if i > 0 {
      var rest := ToLe(v / 0x100, n - 1);
      ToLeSlice(v / 0x100, n - 1, i - 1, k);
      assert ToLe(v, n)[i..i + k] == rest[i - 1..i - 1 + k];
      Pow2Byte(i - 1);
      DivDiv(v, 0x100, Pow2(8 * (i - 1)));
    } else if k > 0 {
      ToLeSlice(v / 0x100, n - 1, 0, k - 1);
      assert ToLe(v, n)[0..k] == [v % 0x100] + ToLe(v / 0x100, n - 1)[0..k - 1];
    }
  }
}
