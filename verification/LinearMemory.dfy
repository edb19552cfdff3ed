/** Loads and stores on linear memory (crates/core/src/untyped.rs, crates/core/src/value.rs). */
module LinearMemory {
  import opened Powers
  import opened Words
  import opened Wrappers

  /** How one access reads memory: its bytes, their sign and the width of the Wasm value. */
  datatype AccessShape = AccessShape(bytes: nat, signed: bool, valueBits: nat) {
    function Bits(): nat { 8 * bytes }
  }

  type Layout = l: AccessShape | 0 < l.bytes && l.Bits() <= l.valueBits <= 64
    witness AccessShape(1, false, 32)

  /** The load instructions; a float is loaded as the bits of its width. */
  datatype LoadOp =
    | I32Load | I64Load | F32Load | F64Load
    | I32Load8S | I32Load8U | I32Load16S | I32Load16U
    | I64Load8S | I64Load8U | I64Load16S | I64Load16U | I64Load32S | I64Load32U
  {
    function Access(): Layout
    {
      match this
      case I32Load => AccessShape(4, true, 32)
      case I64Load => AccessShape(8, true, 64)
      case F32Load => AccessShape(4, false, 32)
      case F64Load => AccessShape(8, false, 64)
      case I32Load8S => AccessShape(1, true, 32)
      case I32Load8U => AccessShape(1, false, 32)
      case I32Load16S => AccessShape(2, true, 32)
      case I32Load16U => AccessShape(2, false, 32)
      case I64Load8S => AccessShape(1, true, 64)
      case I64Load8U => AccessShape(1, false, 64)
      case I64Load16S => AccessShape(2, true, 64)
      case I64Load16U => AccessShape(2, false, 64)
      case I64Load32S => AccessShape(4, true, 64)
      case I64Load32U => AccessShape(4, false, 64)
    }
  }

  /** The store instructions. */
  datatype StoreOp =
    | I32Store | I64Store | F32Store | F64Store
    | I32Store8 | I32Store16 | I64Store8 | I64Store16 | I64Store32
  {
    /** The sign plays no part in a store. */
    function Access(): Layout
    {
      match this
      case I32Store => AccessShape(4, true, 32)
      case I64Store => AccessShape(8, true, 64)
      case F32Store => AccessShape(4, false, 32)
      case F64Store => AccessShape(8, false, 64)
      case I32Store8 => AccessShape(1, true, 32)
      case I32Store16 => AccessShape(2, true, 32)
      case I64Store8 => AccessShape(1, true, 64)
      case I64Store16 => AccessShape(2, true, 64)
      case I64Store32 => AccessShape(4, true, 64)
    }
  }

  const MAX_MEMORY: nat := 0x1_0000_0000

  /** `u32::checked_add`, with overflow reported as an out-of-bounds access. */
  function EffectiveAddress(address: U32, offset: U32): Result<nat, TrapCode> {
    if offset + address < 0x1_0000_0000 then Ok(offset + address) else Err(MemoryOutOfBounds)
  }

  /** `memory.get(address..)` followed by `get(..n)`. */
  function Slice(memory: seq<U8>, address: nat, n: nat): Option<seq<U8>> {
    if address > |memory| then None
    else if n > |memory[address..]| then None
    else Some(memory[address..][..n])
  }

  /** `from_le_bytes`, `extend_into` and the cast back into an untyped value. */
  function Extend(l: Layout, raw: nat): (v: U64)
    requires raw < Pow2(l.Bits())
  {
    assert Pow2(l.valueBits) <= 0x1_0000_0000_0000_0000 by { WordFits(l.valueBits); }
    Wrap(l.valueBits, if l.signed then Signed(l.Bits(), raw) else raw)
  }

  lemma WordFits(bits: nat)
    requires bits <= 64
    ensures Pow2(bits) <= 0x1_0000_0000_0000_0000
  {
    Pow2Values();
    if bits < 64 {
      Pow2Increasing(bits, 64);
    }
  }

  function Load(memory: seq<U8>, address: U64, offset: U32, l: Layout): Result<U64, TrapCode>
  {
    match EffectiveAddress(ToU32(address), offset)
    case Err(e) => Err(e)
    case Ok(ea) =>
      match Slice(memory, ea, l.bytes)
      case None => Err(MemoryOutOfBounds)
      case Some(bytes) => Ok(Extend(l, FromLe(bytes)))
  }

  /** The bytes a store writes: the value cut to its Wasm type, then to the stored width. */
  function StoredBytes(l: Layout, value: U64): (bs: seq<U8>)
    ensures |bs| == l.bytes
  {
    ToLe(Wrap(l.Bits(), Wrap(l.valueBits, value)), l.bytes)
  }

  function Overwrite(memory: seq<U8>, address: nat, bytes: seq<U8>): (m: seq<U8>)
    requires address + |bytes| <= |memory|
    ensures |m| == |memory|
  {
    memory[..address] + bytes + memory[address + |bytes|..]
  }

  /** The outcome of a store together with the memory it leaves. */
  function Store(memory: seq<U8>, address: U64, offset: U32, value: U64, l: Layout)
    : (Result<(), TrapCode>, seq<U8>)
  {
    match EffectiveAddress(ToU32(address), offset)
    case Err(e) => (Err(e), memory)
    case Ok(ea) =>
      if Slice(memory, ea, l.bytes).None? then (Err(MemoryOutOfBounds), memory)
      else (Ok(()), Overwrite(memory, ea, StoredBytes(l, value)))
  }

  // ----- the operations on buffers -------------------------------------------------

  /** Loads `buffer.Length` bytes from `memory`; an out-of-bounds load leaves the buffer alone. */
  method LoadInto(buffer: array<U8>, memory: array<U8>, address: nat) returns (r: Result<(), TrapCode>)
    requires buffer != memory
    modifies buffer
    ensures r == if address + buffer.Length <= memory.Length then Ok(()) else Err(MemoryOutOfBounds)
    ensures r.Ok? ==> Slice(memory[..], address, buffer.Length) == Some(buffer[..])
    ensures r.Err? ==> buffer[..] == old(buffer[..])
  {
    if address > memory.Length || buffer.Length > memory.Length - address {
      return Err(MemoryOutOfBounds);
    }
    forall i | 0 <= i < buffer.Length {
      buffer[i] := memory[address + i];
    }
    assert buffer[..] == memory[..][address..][..buffer.Length];
    return Ok(());
  }

  /** Writes the whole buffer into `memory`; an out-of-bounds store leaves the memory alone. */
  method StoreFrom(buffer: array<U8>, memory: array<U8>, address: nat) returns (r: Result<(), TrapCode>)
    requires buffer != memory
    modifies memory
    ensures r == if address + buffer.Length <= memory.Length then Ok(()) else Err(MemoryOutOfBounds)
    ensures r.Ok? ==> memory[..] == Overwrite(old(memory[..]), address, buffer[..])
    ensures r.Err? ==> memory[..] == old(memory[..])
  {
    if address > memory.Length || buffer.Length > memory.Length - address {
      return Err(MemoryOutOfBounds);
    }
    forall i | 0 <= i < buffer.Length {
      memory[address + i] := buffer[i];
    }
    return Ok(());
  }

  method LoadExtend(memory: array<U8>, address: U64, offset: U32, op: LoadOp) returns (r: Result<U64, TrapCode>)
    ensures r == Load(memory[..], address, offset, op.Access())
  {
    var l := op.Access();
    var ea := EffectiveAddress(ToU32(address), offset);
    if ea.Err? {
      return Err(ea.error);
    }
    var buffer := new U8[l.bytes](_ => 0);
    var loaded := LoadInto(buffer, memory, ea.value);
    if loaded.Err? {
      return Err(loaded.error);
    }
    return Ok(Extend(l, FromLe(buffer[..])));
  }

  method StoreWrap(memory: array<U8>, address: U64, offset: U32, value: U64, op: StoreOp)
    returns (r: Result<(), TrapCode>)
    modifies memory
    ensures (r, memory[..]) == Store(old(memory[..]), address, offset, value, op.Access())
  {
    var l := op.Access();
    var ea := EffectiveAddress(ToU32(address), offset);
    if ea.Err? {
      return Err(ea.error);
    }
    var bytes := StoredBytes(l, value);
    var buffer := new U8[l.bytes](i requires 0 <= i < |bytes| => bytes[i]);
    assert buffer[..] == bytes;
    r := StoreFrom(buffer, memory, ea.value);
  }

  // ----- the meaning given by section 4.4.4 of the WebAssembly Core Specification -----

  /** The address of section 4.4.4: an unbounded sum of the 32-bit operand and the offset. */
  function WasmAddress(address: U64, offset: U32): nat {
    address % 0x1_0000_0000 + offset
  }

  /** The numeric meaning of extension (section 4.3.2): the value of the `bits`-bit pattern `raw`
      read as signed or unsigned, as the word of `valueBits` bits congruent to it. */
  ghost predicate IsExtension(l: Layout, raw: nat, v: nat) {
    && v < Pow2(l.valueBits)
    && (!l.signed || raw < Pow2(l.Bits() - 1) ==> v == raw)
    && (l.signed && raw >= Pow2(l.Bits() - 1) ==> v == raw + Pow2(l.valueBits) - Pow2(l.Bits()))
  }

  lemma ExtendIsExtension(l: Layout, raw: nat)
    requires raw < Pow2(l.Bits())
    ensures IsExtension(l, raw, Extend(l, raw))
  {
    if l.Bits() < l.valueBits {
      Pow2Increasing(l.Bits(), l.valueBits);
    }
    if l.signed && raw >= Pow2(l.Bits() - 1) {
      WrapNegative(raw, Pow2(l.Bits()), Pow2(l.valueBits));
    } else {
      WrapSmall(raw, Pow2(l.Bits()), Pow2(l.valueBits));
    }
  }

  lemma WrapNegative(raw: nat, b: nat, v: nat)
    requires raw < b <= v
    ensures (raw - b) % v == raw - b + v
  {
    DivModUnique(raw - b, v, -1, raw - b + v);
  }

  lemma WrapSmall(raw: nat, b: nat, v: nat)
    requires raw < b <= v
    ensures raw % v == raw
  {
    DivModUnique(raw, v, 0, raw);
  }

  /** The two-stage check traps exactly when the unbounded address runs past the memory, and a
      load that does not trap yields the extension of the little-endian bytes found there. */
  lemma LoadMeaning(memory: seq<U8>, address: U64, offset: U32, l: Layout)
    requires |memory| <= MAX_MEMORY
    ensures var ea := WasmAddress(address, offset);
            var r := Load(memory, address, offset, l);
            if ea + l.bytes > |memory| then r == Err(MemoryOutOfBounds)
            else r.Ok? && IsExtension(l, FromLe(memory[ea..ea + l.bytes]), r.value)
  {
    var ea := WasmAddress(address, offset);
    if ea + l.bytes <= |memory| {
      assert memory[ea..][..l.bytes] == memory[ea..ea + l.bytes];
      ExtendIsExtension(l, FromLe(memory[ea..ea + l.bytes]));
    }
  }

  /** Cutting to the Wasm type first makes no difference: the stored bytes are the low bytes. */
  lemma StoredBytesAreLowBytes(l: Layout, value: U64)
    ensures FromLe(StoredBytes(l, value)) == Wrap(l.Bits(), value)
  {
    var d := l.valueBits - l.Bits();
    Pow2Add(l.Bits(), d);
    ModMod(value, Pow2(l.Bits()), Pow2(d));
    FromToLe(Wrap(l.Bits(), Wrap(l.valueBits, value)), l.bytes);
    DivModUnique(Wrap(l.Bits(), value), Pow2(l.Bits()), 0, Wrap(l.Bits(), value));
  }

  /** A store traps exactly when the unbounded address runs past the memory and then changes
      nothing; otherwise it changes its own bytes only, and those hold the wrapped value. */
  lemma StoreMeaning(memory: seq<U8>, address: U64, offset: U32, value: U64, l: Layout)
    requires |memory| <= MAX_MEMORY
    ensures var ea := WasmAddress(address, offset);
            var (r, m) := Store(memory, address, offset, value, l);
            if ea + l.bytes > |memory| then r == Err(MemoryOutOfBounds) && m == memory
            else && r == Ok(()) && |m| == |memory|
                 && FromLe(m[ea..ea + l.bytes]) == Wrap(l.Bits(), value)
                 && forall i :: 0 <= i < |m| && !(ea <= i < ea + l.bytes) ==> m[i] == memory[i]
  {
    var ea := WasmAddress(address, offset);
    if ea + l.bytes <= |memory| {
      var m := Store(memory, address, offset, value, l).1;
      assert m[ea..ea + l.bytes] == StoredBytes(l, value);
      StoredBytesAreLowBytes(l, value);
    }
  }

  /** A store followed by a load of the same place and width, however its address and offset are
      put together, returns the value wrapped to that width and then extended. */
  lemma LoadAfterStore(memory: seq<U8>, address: U64, offset: U32, value: U64, s: Layout,
                       address': U64, offset': U32, l: Layout)
    requires |memory| <= MAX_MEMORY
    requires s.bytes == l.bytes && WasmAddress(address', offset') == WasmAddress(address, offset)
    ensures var (r, m) := Store(memory, address, offset, value, s);
            var back := Load(m, address', offset', l);
            && (r.Ok? <==> back.Ok?)
            && (back.Ok? ==> IsExtension(l, Wrap(l.Bits(), value), back.value))
  {
    StoreMeaning(memory, address, offset, value, s);
    LoadMeaning(Store(memory, address, offset, value, s).1, address', offset', l);
  }

  /** A wide store is seen by any load inside it as the matching slice of the value:
      `i` bytes further on, the value shifted down by `i` bytes. */
  lemma LoadInsideStore(memory: seq<U8>, address: U64, offset: U32, value: U64, s: Layout,
                        address': U64, offset': U32, i: nat, l: Layout)
    requires |memory| <= MAX_MEMORY
    requires i + l.bytes <= s.bytes
    requires WasmAddress(address', offset') == WasmAddress(address, offset) + i
    requires Store(memory, address, offset, value, s).0.Ok?
    ensures var back := Load(Store(memory, address, offset, value, s).1, address', offset', l);
            && back.Ok?
            && IsExtension(l, Wrap(l.Bits(), Shr(value, 8 * i)), back.value)
  {
    StoreMeaning(memory, address, offset, value, s);
    LoadInside(Store(memory, address, offset, value, s).1, WasmAddress(address, offset), value, s.bytes, address', offset', i, l);
  }

  /** The same for a memory in which the encoding of the wrapped value has been found. */
  lemma LoadInside(m: seq<U8>, ea: nat, value: U64, n: nat, address': U64, offset': U32, i: nat, l: Layout)
    requires |m| <= MAX_MEMORY
    requires i + l.bytes <= n && ea + n <= |m| && WasmAddress(address', offset') == ea + i
    requires FromLe(m[ea..ea + n]) == Wrap(8 * n, value)
    ensures var back := Load(m, address', offset', l);
            back.Ok? && IsExtension(l, Wrap(l.Bits(), Shr(value, 8 * i)), back.value)
  {
    LoadMeaning(m, address', offset', l);
    SliceOfStored(m, ea, value, n, i, l.bytes);
  }

  lemma SliceOfStored(m: seq<U8>, ea: nat, value: U64, n: nat, i: nat, k: nat)
    requires i + k <= n && ea + n <= |m|
    requires FromLe(m[ea..ea + n]) == Wrap(8 * n, value)
    ensures FromLe(m[ea + i..ea + i + k]) == Wrap(8 * k, Shr(value, 8 * i))
  {
    SubSlice(m, ea, n, i, k);
    SliceOfEncoding(m[ea..ea + n], value, i, k);
  }

  lemma SubSlice(m: seq<U8>, a: nat, n: nat, i: nat, k: nat)
    requires i + k <= n && a + n <= |m|
    ensures m[a..a + n][i..i + k] == m[a + i..a + i + k]
  {
    var w := m[a..a + n];
    assert forall j :: 0 <= j < n ==> w[j] == m[a + j];
    var l, r := w[i..i + k], m[a + i..a + i + k];
    forall j | 0 <= j < k ensures l[j] == r[j] {
      assert l[j] == w[i + j];
    }
  }

  /** The bytes of a wrapped value, `i` bytes in, encode the value shifted down by `i` bytes. */
  lemma SliceOfEncoding(stored: seq<U8>, value: nat, i: nat, k: nat)
    requires i + k <= |stored|
    requires FromLe(stored) == Wrap(8 * |stored|, value)
    ensures FromLe(stored[i..i + k]) == Wrap(8 * k, Shr(value, 8 * i))
  {
    var w, n := FromLe(stored), |stored|;
    ToFromLe(stored);
    ToLeSlice(w, n, i, k);
    FromToLe(Shr(w, 8 * i), k);
    SliceOfWrapped(value, n, i, k);
  }

  lemma SliceOfWrapped(value: nat, n: nat, i: nat, k: nat)
    requires i + k <= n
    ensures Wrap(8 * k, Shr(Wrap(8 * n, value), 8 * i)) == Wrap(8 * k, Shr(value, 8 * i))
  {
    var rest := n - i;
    Pow2Add(8 * i, 8 * rest);
    ModMod(value, Pow2(8 * i), Pow2(8 * rest));
    Pow2Add(8 * k, 8 * (rest - k));
    ModMod(Shr(value, 8 * i), Pow2(8 * k), Pow2(8 * (rest - k)));
  }

  /** A load that shares no byte with a store does not see it. */
  lemma LoadDisjointFromStore(memory: seq<U8>, address: U64, offset: U32, value: U64, s: Layout,
                              address': U64, offset': U32, l: Layout)
    requires |memory| <= MAX_MEMORY
    requires var ea, ea' := WasmAddress(address, offset), WasmAddress(address', offset');
             ea + s.bytes <= ea' || ea' + l.bytes <= ea
    ensures Load(Store(memory, address, offset, value, s).1, address', offset', l)
            == Load(memory, address', offset', l)
  {
    var ea' := WasmAddress(address', offset');
    var m := Store(memory, address, offset, value, s).1;
    StoreMeaning(memory, address, offset, value, s);
    if ea' + l.bytes <= |memory| {
      assert m[ea'..][..l.bytes] == memory[ea'..][..l.bytes];
    }
  }

  // ----- instruction by instruction --------------------------------------------------------

  /** The bytes an instruction loads, as its name says. */
  function LoadedBytes(op: LoadOp): nat {
    match op
    case I32Load8S => 1 case I32Load8U => 1 case I64Load8S => 1 case I64Load8U => 1
    case I32Load16S => 2 case I32Load16U => 2 case I64Load16S => 2 case I64Load16U => 2
    case I64Load => 8 case F64Load => 8
    case _ => 4
  }

  /** What sign extension adds to a pattern whose top bit is set. */
  function SignFill(op: LoadOp): nat {
    match op
    case I32Load8S => 0xFFFF_FF00
    case I32Load16S => 0xFFFF_0000
    case I64Load8S => 0xFFFF_FFFF_FFFF_FF00
    case I64Load16S => 0xFFFF_FFFF_FFFF_0000
    case I64Load32S => 0xFFFF_FFFF_0000_0000
    case _ => 0
  }

  function TopBit(op: LoadOp): nat {
    match LoadedBytes(op) case 1 => 0x80 case 2 => 0x8000 case 4 => 0x8000_0000 case _ => 0x8000_0000_0000_0000
  }

  /** Every load instruction in numbers. */
  lemma LoadOpMeaning(memory: seq<U8>, address: U64, offset: U32, op: LoadOp)
    requires |memory| <= MAX_MEMORY && WasmAddress(address, offset) + LoadedBytes(op) <= |memory|
    ensures var ea := WasmAddress(address, offset);
            var raw := FromLe(memory[ea..ea + LoadedBytes(op)]);
            Load(memory, address, offset, op.Access()) == Ok(if raw < TopBit(op) then raw else raw + SignFill(op))
  {
    LoadMeaning(memory, address, offset, op.Access());
    TableInNumbers(op);
  }

  lemma TableInNumbers(op: LoadOp)
    ensures var l := op.Access();
            && l.bytes == LoadedBytes(op)
            && Pow2(l.Bits() - 1) == TopBit(op)
            && (if l.signed then Pow2(l.valueBits) - Pow2(l.Bits()) else 0) == SignFill(op)
  {
    Pow2Values();
  }

  /** The outcome of loading `n` bytes of which a set top bit adds `fill`. */
  ghost predicate Loads(memory: seq<U8>, ea: nat, n: nat, fill: nat, r: Result<U64, TrapCode>)
    requires n > 0
  {
    if ea + n > |memory| then r == Err(MemoryOutOfBounds)
    else
      var raw := FromLe(memory[ea..ea + n]);
      r.Ok? && r.value == if raw < Pow2(8 * n - 1) then raw else raw + fill
  }

  /** All load instructions by name, traps included. */
  lemma LoadOpByName(memory: seq<U8>, address: U64, offset: U32, op: LoadOp)
    requires |memory| <= MAX_MEMORY
    ensures var ea, r := address % 0x1_0000_0000 + offset, Load(memory, address, offset, op.Access());
            match op
            case I32Load => Loads(memory, ea, 4, 0, r)
            case I64Load => Loads(memory, ea, 8, 0, r)
            case F32Load => Loads(memory, ea, 4, 0, r)
            case F64Load => Loads(memory, ea, 8, 0, r)
            case I32Load8S => Loads(memory, ea, 1, 0xFFFF_FF00, r)
            case I32Load8U => Loads(memory, ea, 1, 0, r)
            case I32Load16S => Loads(memory, ea, 2, 0xFFFF_0000, r)
            case I32Load16U => Loads(memory, ea, 2, 0, r)
            case I64Load8S => Loads(memory, ea, 1, 0xFFFF_FFFF_FFFF_FF00, r)
            case I64Load8U => Loads(memory, ea, 1, 0, r)
            case I64Load16S => Loads(memory, ea, 2, 0xFFFF_FFFF_FFFF_0000, r)
            case I64Load16U => Loads(memory, ea, 2, 0, r)
            case I64Load32S => Loads(memory, ea, 4, 0xFFFF_FFFF_0000_0000, r)
            case I64Load32U => Loads(memory, ea, 4, 0, r)
  {
    LoadsOfOp(memory, address, offset, op);
  }

  lemma LoadsOfOp(memory: seq<U8>, address: U64, offset: U32, op: LoadOp)
    requires |memory| <= MAX_MEMORY
    ensures Loads(memory, WasmAddress(address, offset), LoadedBytes(op), SignFill(op),
                  Load(memory, address, offset, op.Access()))
  {
    LoadMeaning(memory, address, offset, op.Access());
    TableInNumbers(op);
  }

  /** The outcome of storing the `n` low bytes of a value: only they change. */
  ghost predicate Stores(memory: seq<U8>, ea: nat, n: nat, value: U64, r: Result<(), TrapCode>, m: seq<U8>) {
    if ea + n > |memory| then r == Err(MemoryOutOfBounds) && m == memory
    else
      && r == Ok(()) && |m| == |memory|
      && FromLe(m[ea..ea + n]) == value % Pow2(8 * n)
      && forall i :: 0 <= i < |m| && !(ea <= i < ea + n) ==> m[i] == memory[i]
  }

  /** All store instructions by name, traps included. */
  lemma StoreOpByName(memory: seq<U8>, address: U64, offset: U32, value: U64, s: StoreOp)
    requires |memory| <= MAX_MEMORY
    ensures var ea := address % 0x1_0000_0000 + offset;
            var (r, m) := Store(memory, address, offset, value, s.Access());
            match s
            case I32Store => Stores(memory, ea, 4, value, r, m)
            case I64Store => Stores(memory, ea, 8, value, r, m)
            case F32Store => Stores(memory, ea, 4, value, r, m)
            case F64Store => Stores(memory, ea, 8, value, r, m)
            case I32Store8 => Stores(memory, ea, 1, value, r, m)
            case I32Store16 => Stores(memory, ea, 2, value, r, m)
            case I64Store8 => Stores(memory, ea, 1, value, r, m)
            case I64Store16 => Stores(memory, ea, 2, value, r, m)
            case I64Store32 => Stores(memory, ea, 4, value, r, m)
  {
    StoresOfOp(memory, address, offset, value, s.Access());
  }

  lemma StoresOfOp(memory: seq<U8>, address: U64, offset: U32, value: U64, l: Layout)
    requires |memory| <= MAX_MEMORY
    ensures var (r, m) := Store(memory, address, offset, value, l);
            Stores(memory, WasmAddress(address, offset), l.bytes, value, r, m)
  {
    StoreMeaning(memory, address, offset, value, l);
  }

  /** The load that reads back all that a store writes, without a sign. */
  function MatchingLoad(s: StoreOp): LoadOp {
    match s
    case I32Store => I32Load
    case I64Store => I64Load
    case F32Store => F32Load
    case F64Store => F64Load
    case I32Store8 => I32Load8U
    case I32Store16 => I32Load16U
    case I64Store8 => I64Load8U
    case I64Store16 => I64Load16U
    case I64Store32 => I64Load32U
  }

  /** Every store instruction in numbers: the matching load returns the value modulo the width. */
  lemma StoreOpMeaning(memory: seq<U8>, address: U64, offset: U32, value: U64, s: StoreOp)
    requires |memory| <= MAX_MEMORY && WasmAddress(address, offset) + LoadedBytes(MatchingLoad(s)) <= |memory|
    ensures var m := Store(memory, address, offset, value, s.Access()).1;
            Load(m, address, offset, MatchingLoad(s).Access()) == Ok(value % (2 * TopBit(MatchingLoad(s))))
  {
    var l := MatchingLoad(s).Access();
    StoreTable(s);
    StoreMeaning(memory, address, offset, value, s.Access());
    LoadAfterStore(memory, address, offset, value, s.Access(), address, offset, l);
    Unsigned(l, Wrap(l.Bits(), value), Load(Store(memory, address, offset, value, s.Access()).1, address, offset, l).value);
  }

  lemma StoreTable(s: StoreOp)
    ensures var l := MatchingLoad(s).Access();
            && s.Access().bytes == l.bytes == LoadedBytes(MatchingLoad(s))
            && Pow2(l.Bits()) == 2 * TopBit(MatchingLoad(s))
            && (l.signed ==> l.Bits() == l.valueBits)
  {
    TableInNumbers(MatchingLoad(s));
  }

  /** Extension changes nothing without a sign or without a wider value. */
  lemma Unsigned(l: Layout, raw: nat, v: nat)
    requires IsExtension(l, raw, v) && (l.signed ==> l.Bits() == l.valueBits)
    ensures v == raw
  {
  }
}
