/** Packing a comparator and a branch offset into 64 bits (crates/ir/src/primitive.rs). */
module Comparators {
  import opened Wrappers

  /** A 32-bit word, kept in a 64-bit vector. */
  type Half = x: bv64 | x <= 0xFFFF_FFFF

  /** A comparator is its `u32` discriminant: 38 of them, numbered from `I32Eq` on. */
  type Comparator = x: bv64 | x < 38

  const I32Eq: Comparator := 0

  function ComparatorFrom(value: Half): Option<Comparator> {
    if value < 38 then Some(value) else None
  }

  /** The offset holds the bits of an `i32`. */
  datatype ComparatorAndOffset = ComparatorAndOffset(cmp: Comparator, offset: Half)

  predicate IsNegative(offset: Half) { offset >= 0x8000_0000 }

  /** `i32 as u64`, which extends the sign. */
  function SignExtend(offset: Half): bv64 {
    if IsNegative(offset) then offset | 0xFFFF_FFFF_0000_0000 else offset
  }

  function AsU64(c: ComparatorAndOffset): bv64 {
    var hi := c.cmp;
    var lo := SignExtend(c.offset);
    (hi << 32) & lo
  }

  function FromU64(value: bv64): Option<ComparatorAndOffset> {
    var hi := value >> 32;
    var lo := value & 0xFFFF_FFFF;
    match ComparatorFrom(hi)
    case None => None
    case Some(cmp) => Some(ComparatorAndOffset(cmp, lo))
  }

  /** What unpacking makes of a packed pair: the offset is always lost, and so is the comparator
      unless the offset was negative. */
  lemma UnpackedAsWritten(c: ComparatorAndOffset)
    ensures FromU64(AsU64(c)) == Some(ComparatorAndOffset(if IsNegative(c.offset) then c.cmp else I32Eq, 0))
  {
    AndOfParts(c.cmp, c.offset);
  }

  lemma AndOfParts(hi: bv64, o: bv64)
    requires hi < 38 && o <= 0xFFFF_FFFF
    ensures (hi << 32) & o == 0
    ensures (hi << 32) & (o | 0xFFFF_FFFF_0000_0000) == hi << 32
    ensures (hi << 32) >> 32 == hi && (hi << 32) & 0xFFFF_FFFF == 0
  {
  }

  /** Packing is meant to be undone by unpacking. As written it is undone only for one pair. */
  lemma RoundTripAsWritten(c: ComparatorAndOffset)
    ensures FromU64(AsU64(c)) == Some(c) <==> c == ComparatorAndOffset(I32Eq, 0)
  {
    UnpackedAsWritten(c);
  }

  /** As written, packing merges whole families: every non-negative offset packs to zero. */
  lemma AsWrittenMerges(c: ComparatorAndOffset)
    requires !IsNegative(c.offset)
    ensures AsU64(c) == 0
  {
    AndOfParts(c.cmp, c.offset);
  }

  /** The packing meant: the comparator above the low half of the offset. */
  function AsU64Repaired(c: ComparatorAndOffset): bv64 {
    (c.cmp << 32) | (SignExtend(c.offset) & 0xFFFF_FFFF)
  }

  lemma RoundTripRepaired(c: ComparatorAndOffset)
    ensures FromU64(AsU64Repaired(c)) == Some(c)
  {
    Packed(c);
    Unpacked(AsU64Repaired(c), c);
  }

  lemma Packed(c: ComparatorAndOffset)
    ensures AsU64Repaired(c) == (c.cmp << 32) | c.offset
  {
    LowHalf(c.offset);
  }

  lemma Unpacked(value: bv64, c: ComparatorAndOffset)
    requires value == (c.cmp << 32) | c.offset
    ensures FromU64(value) == Some(c)
  {
    OrOfParts(c.cmp, c.offset);
  }

  lemma LowHalf(offset: Half)
    ensures SignExtend(offset) & 0xFFFF_FFFF == offset
  {
    if IsNegative(offset) {
      LowHalfOfNegative(offset);
    } else {
      LowHalfOfOther(offset);
    }
  }

  lemma LowHalfOfNegative(offset: Half)
    requires IsNegative(offset)
    ensures SignExtend(offset) & 0xFFFF_FFFF == offset
  {
    assert (offset | 0xFFFF_FFFF_0000_0000) & 0xFFFF_FFFF == offset;
  }

  lemma LowHalfOfOther(offset: Half)
    requires !IsNegative(offset)
    ensures SignExtend(offset) & 0xFFFF_FFFF == offset
  {
  }

  lemma OrOfParts(hi: bv64, o: bv64)
    requires hi < 38 && o <= 0xFFFF_FFFF
    ensures ((hi << 32) | o) >> 32 == hi
    ensures ((hi << 32) | o) & 0xFFFF_FFFF == o
  {
  }

  /** Unpacking rejects exactly the words without a comparator in their high half; all others are the
      repaired packing of what it returns. */
  lemma UnpackMeaning(value: bv64)
    ensures FromU64(value) == None <==> value >> 32 >= 38
    ensures FromU64(value).Some? ==> AsU64Repaired(FromU64(value).value) == value
  {
    if FromU64(value).Some? {
      Packed(FromU64(value).value);
      OrOfHalves(value);
    }
  }

  lemma OrOfHalves(value: bv64)
    ensures ((value >> 32) << 32) | (value & 0xFFFF_FFFF) == value
  {
  }

  /** The repaired packing keeps all pairs apart. */
  lemma RepairedInjective(c: ComparatorAndOffset, d: ComparatorAndOffset)
    requires AsU64Repaired(c) == AsU64Repaired(d)
    ensures c == d
  {
    RoundTripRepaired(c);
    RoundTripRepaired(d);
  }
}
