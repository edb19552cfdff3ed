/** The printer of Motoko heap objects (crates/debugger/src/heap.rs): a recursive decoder over the
    bytes of linear memory. */
module HeapPrinter {
  import opened LinearMemory
  import opened Powers
  import opened TextEncoding
  import opened Words
  import opened Wrappers

  datatype ValType = I32 | I64 | F32 | F64 | FuncRef | ExternRef {
    predicate IsFloat() { F32? || F64? }
  }

  /** The outcome of printing: a text, an error, a panic, or running out of stack. An error inside
      an array element is replaced by a text, a panic is not. */
  datatype Outcome = Shown(text: string) | Failed | Panicked | Overflowed

  /** Standard formatting, and the calls into the debugged program that convert big integers. */
  datatype Env = Env(
    formatInt: int -> string,
    debugF32: nat -> string,
    formatF64: nat -> string,
    debugF64: nat -> string,
    formatWord: nat -> string,
    describe: (nat, nat, ValType) -> string,
    bigInt: (nat, ValType, bool) -> Outcome)

  const TAG_OFFSET: nat := 1
  const DATA_OFFSET: nat := 4
  const ARRAY_DATA_OFFSET: nat := 8

  /** `Tagged::from_u64` knows the odd numbers up to 51 and three others. */
  predicate IsTag(value: nat) {
    (value % 2 == 1 && value <= 51) || value == 52 || value == 0xFFFF_FFFE || value == 0xFFFF_FFFF
  }

  /** `load_from_heap` and the loads beside it: address, offset and instruction to loaded bits. */
  type Loader = (U64, nat, LoadOp) -> Option<U64>

  /** The loads from a memory; the offset is a `u32`. */
  function LoadHeap(memory: seq<U8>): Loader {
    (address: U64, offset: nat, op: LoadOp) =>
      match Load(memory, address, ToU32(offset), op.Access())
      case Ok(v) => Some(v)
      case Err(_) => None
  }

  function ElementLoad(ty: ValType): Option<LoadOp> {
    match ty
    case I32 => Some(I32Load)
    case I64 => Some(I64Load)
    case F32 => Some(F32Load)
    case F64 => Some(F64Load)
    case _ => None
  }

  /** A leaf object: one formatted value after the header. */
  function ShowLoaded(load: Loader, address: U64, op: LoadOp, format: nat -> string): Outcome {
    match load(address, TAG_OFFSET + DATA_OFFSET, op)
    case None => Failed
    case Some(v) => Shown(format(v))
  }

  /** The first `n` characters of a text blob: one character per byte. */
  function BlobChars(load: Loader, address: U64, n: nat): Outcome {
    if n == 0 then Shown("")
    else
      match BlobChars(load, address, n - 1)
      case Shown(s) => (
        match load(address, TAG_OFFSET + ARRAY_DATA_OFFSET + (n - 1), I32Load8U)
        case None => Failed
        case Some(c) => Shown(s + [CharFrom(c)]))
      case o => o
  }

  /** `char::from(u8)`. */
  function CharFrom(v: nat): char { (v % 0x100) as char }

  function BlobText(load: Loader, address: U64): Outcome {
    match load(address, TAG_OFFSET + DATA_OFFSET, I32Load)
    case None => Failed
    case Some(len) => BlobChars(load, address, len)
  }

  function DisplayLocal(env: Env, load: Loader, address: U64, ty: ValType, helpers: bool, depth: nat): Outcome
    decreases depth, 0, 0
  {
    if depth == 0 then Overflowed
    else
      match load(address, TAG_OFFSET, I32Load)
      case None => Failed
      case Some(tag) =>
        if !IsTag(tag) then Failed
        else if tag == 3 || tag == 5 then Array(env, load, address, ty, helpers, depth - 1)
        else if tag == 17 then ShowLoaded(load, address, I32Load, env.formatWord)
        else if tag == 35 then env.bigInt(address, ty, helpers)
        else if tag == 15 then ShowLoaded(load, address, F64Load, env.debugF64)
        else if tag == 45 then ShowLoaded(load, address, F32Load, env.debugF32)
        else if tag == 27 then BlobText(load, address)
        else if tag == 37 then Concat(env, load, address, depth - 1)
        else if tag == 23 then
          ShowLoaded(load, address, I32Load, (w: nat) => "variant tag: " + env.formatWord(w) + ", value not supported yet")
        else Shown(env.describe(address, tag, ty))
  }

  /** A rope: its halves are printed without the helpers for big integers. */
  function Concat(env: Env, load: Loader, address: U64, depth: nat): Outcome
    decreases depth, 1, 0
  {
    var hash := load(address, TAG_OFFSET + DATA_OFFSET, I32Load);
    var text1 := load(address, TAG_OFFSET + ARRAY_DATA_OFFSET, I32Load);
    var text2 := load(address, TAG_OFFSET + ARRAY_DATA_OFFSET + 4, I32Load);
    if hash.None? || text1.None? || text2.None? then Failed
    else
      match DisplayLocal(env, load, text1.value, I32, false, depth)
      case Shown(s) => (
        match DisplayLocal(env, load, text2.value, I32, false, depth)
        case Shown(t) => Shown(s + t)
        case o => o)
      case o => o
  }

  function Array(env: Env, load: Loader, address: U64, ty: ValType, helpers: bool, depth: nat): Outcome
    decreases depth, 3, 0
  {
    match load(address, TAG_OFFSET + DATA_OFFSET, I32Load)
    case None => Failed
    case Some(len) =>
      match Elements(env, load, address, ty, helpers, depth, len)
      case Shown(s) => Shown("[" + s + "]")
      case o => o
  }

  /** The first `n` elements, each followed by a comma. */
  function Elements(env: Env, load: Loader, address: U64, ty: ValType, helpers: bool, depth: nat, n: nat): Outcome
    decreases depth, 2, n
  {
    if n == 0 then Shown("")
    else
      match Elements(env, load, address, ty, helpers, depth, n - 1)
      case Shown(s) => (
        match Element(env, load, address, ty, helpers, depth, n - 1)
        case Shown(t) => Shown(s + t + ", ")
        case o => o)
      case o => o
  }

  function Element(env: Env, load: Loader, address: U64, ty: ValType, helpers: bool, depth: nat, i: nat): Outcome
    decreases depth, 1, 1
  {
    match ElementLoad(ty)
    case None => Panicked
    case Some(op) =>
      match load(address, TAG_OFFSET + ARRAY_DATA_OFFSET + i * op.Access().bytes, op)
      case None => Failed
      case Some(v) => DisplayVal(env, load, v, ty, helpers, depth)
  }

  /** `display_wasm_val`: even words are compact integers, all others pointers. */
  function DisplayVal(env: Env, load: Loader, val: U64, ty: ValType, helpers: bool, depth: nat): Outcome
    decreases depth, 1, 0
  {
    if val % 2 == 0 && !ty.IsFloat() then CompactInt(env, val / 2, ty)
    else
      match DisplayLocal(env, load, val, ty, helpers, depth)
      case Failed => Shown(env.formatF64(val))
      case o => o
  }

  /** The word after the logical shift, read as an integer of the value's type. */
  function CompactInt(env: Env, shifted: U64, ty: ValType): Outcome {
    match ty
    case I32 => Shown(env.formatInt(if ToU32(shifted) < 0x8000_0000 then ToU32(shifted) else ToU32(shifted) - 0x1_0000_0000))
    case I64 => Shown(env.formatInt(if shifted < 0x8000_0000_0000_0000 then shifted else shifted - 0x1_0000_0000_0000_0000))
    case _ => Panicked
  }

  // ----- the loops -------------------------------------------------------------------------

  /** `handle_blob_text`. */
  method HandleBlobText(load: Loader, address: U64) returns (r: Outcome)
    ensures r == BlobText(load, address)
  {
    var len := load(address, TAG_OFFSET + DATA_OFFSET, I32Load);
    if len.None? {
      return Failed;
    }
    var text := "";
    for i := 0 to len.value
      invariant BlobChars(load, address, i) == Shown(text)
    {
      var c := load(address, TAG_OFFSET + ARRAY_DATA_OFFSET + i, I32Load8U);
      if c.None? {
        BlobStuck(load, address, i + 1, len.value);
        return Failed;
      }
      text := text + [CharFrom(c.value)];
    }
    return Shown(text);
  }

  lemma {:induction false} BlobStuck(load: Loader, address: U64, k: nat, n: nat)
    requires k <= n && !BlobChars(load, address, k).Shown?
    ensures BlobChars(load, address, n) == BlobChars(load, address, k)
    decreases n
  {
    if k < n {
      BlobStuck(load, address, k, n - 1);
    }
  }

  /** `handle_array_var_t`. */
  method HandleArrayVarT(env: Env, load: Loader, address: U64, ty: ValType, helpers: bool, depth: nat)
    returns (r: Outcome)
    ensures r == Array(env, load, address, ty, helpers, depth)
  {
    var len := load(address, TAG_OFFSET + DATA_OFFSET, I32Load);
    if len.None? {
      return Failed;
    }
    var text := "";
    for i := 0 to len.value
      invariant Elements(env, load, address, ty, helpers, depth, i) == Shown(text)
    {
      var element := Element(env, load, address, ty, helpers, depth, i);
      if !element.Shown? {
        ElementsStuck(env, load, address, ty, helpers, depth, i + 1, len.value);
        return element;
      }
      text := text + element.text + ", ";
    }
    return Shown("[" + text + "]");
  }

  lemma {:induction false} ElementsStuck(env: Env, load: Loader, address: U64, ty: ValType, helpers: bool,
                                         depth: nat, k: nat, n: nat)
    requires k <= n && !Elements(env, load, address, ty, helpers, depth, k).Shown?
    ensures Elements(env, load, address, ty, helpers, depth, n) == Elements(env, load, address, ty, helpers, depth, k)
    decreases n
  {
    if k < n {
      ElementsStuck(env, load, address, ty, helpers, depth, k, n - 1);
    }
  }

  // ----- what the bytes represent ----------------------------------------------------------

  /** A finite text rope, and the values the printer understands. A text is a rope together with the
      characters it stands for; a word that is the address of nothing known stands for itself. */
  datatype Rope = Leaf(bytes: seq<U8>) | Node(left: Rope, right: Rope)

  datatype Value = Scalar(n: int) | Text(rope: Rope, text: string) | Unknown(word: U32) | Items(items: seq<Value>)

  function Flatten(r: Rope): seq<U8> {
    match r
    case Leaf(bytes) => bytes
    case Node(left, right) => Flatten(left) + Flatten(right)
  }

  function Max(a: nat, b: nat): nat { if a < b then b else a }

  function RopeHeight(r: Rope): nat {
    match r
    case Leaf(_) => 1
    case Node(left, right) => 1 + Max(RopeHeight(left), RopeHeight(right))
  }

  function Height(v: Value): nat
    decreases v, 1, 0
  {
    match v
    case Scalar(_) => 0
    case Text(rope, _) => RopeHeight(rope)
    case Unknown(_) => 1
    case Items(items) => 1 + Tallest(v, |items|)
  }

  /** The height of the tallest among the first `n` items. */
  function Tallest(v: Value, n: nat): nat
    requires v.Items? && n <= |v.items|
    decreases v, 0, n
  {
    if n == 0 then 0 else Max(Tallest(v, n - 1), Height(v.items[n - 1]))
  }

  lemma {:induction false} TallestBounds(v: Value, n: nat, i: nat)
    requires v.Items? && i < n <= |v.items|
    ensures Height(v.items[i]) <= Tallest(v, n)
    decreases n
  {
    if i < n - 1 {
      TallestBounds(v, n - 1, i);
    }
  }

  /** The text of a value: scalars in decimal, texts as they are, unknown words as the floats of those
      bits, arrays in brackets. */
  function Print(env: Env, v: Value): string
    decreases v, 1, 0
  {
    match v
    case Scalar(n) => env.formatInt(n)
    case Text(_, text) => text
    case Unknown(word) => env.formatF64(word)
    case Items(items) => "[" + PrintItems(env, v, |items|) + "]"
  }

  /** What the printer makes of a value: the logical shift leaves negative scalars 2^31 too high, and
      a text becomes the bytes of its rope, one character for each. */
  function AsShown(v: Value): Value {
    match v
    case Scalar(n) => Scalar(if n < 0 then n + 0x8000_0000 else n)
    case Text(rope, _) => Text(rope, Chars(Flatten(rope)))
    case Unknown(_) => v
    case Items(items) => Items(seq(|items|, i requires 0 <= i < |items| => AsShown(items[i])))
  }

  /** No integer in it is negative and no text goes beyond ASCII. */
  predicate IsPlain(v: Value) {
    match v
    case Scalar(n) => n >= 0
    case Text(_, text) => IsAscii(text)
    case Unknown(_) => true
    case Items(items) => forall i :: 0 <= i < |items| ==> IsPlain(items[i])
  }

  /** The ropes hold the bytes of their texts in UTF-8. */
  predicate IsEncoded(v: Value) {
    match v
    case Scalar(_) => true
    case Text(rope, text) => Flatten(rope) == Utf8(text)
    case Unknown(_) => true
    case Items(items) => forall i :: 0 <= i < |items| ==> IsEncoded(items[i])
  }

  function PrintItems(env: Env, v: Value, n: nat): string
    requires v.Items? && n <= |v.items|
    decreases v, 0, n
  {
    if n == 0 then "" else PrintItems(env, v, n - 1) + Print(env, v.items[n - 1]) + ", "
  }

  function Word(b0: U8, b1: U8, b2: U8, b3: U8): U32 {
    (b0 as int) + 0x100 * (b1 as int) + 0x1_0000 * (b2 as int) + 0x100_0000 * (b3 as int)
  }

  /** The little-endian word at a place in memory. */
  function WordAt(memory: seq<U8>, at: nat): U32
    requires at + 4 <= |memory|
  {
    Word(memory[at], memory[at + 1], memory[at + 2], memory[at + 3])
  }

  /** Pointers are skewed: an object starts one byte after its address. */
  function Object(address: U64): nat { ToU32(address) + 1 }

  /** An address represents a rope: leaves and concatenations, as the bytes spell them. */
  ghost predicate RopeAt(memory: seq<U8>, address: U64, r: Rope)
    decreases r
  {
    var o := Object(address);
    match r
    case Leaf(bytes) =>
      && o + 8 + |bytes| <= |memory|
      && WordAt(memory, o) == 27 && WordAt(memory, o + 4) == |bytes|
      && memory[o + 8..o + 8 + |bytes|] == bytes
    case Node(left, right) =>
      && o + 16 <= |memory|
      && WordAt(memory, o) == 37
      && RopeAt(memory, WordAt(memory, o + 8), left)
      && RopeAt(memory, WordAt(memory, o + 12), right)
  }

  /** The integers of 31 bits, which have a compact form. */
  predicate IsCompact(n: int) { -0x4000_0000 <= n < 0x4000_0000 }

  /** The compact form: shifted left by one, as a 32-bit word. */
  function Compact(n: int): U32
    requires IsCompact(n)
  {
    if n >= 0 then 2 * n else 2 * n + 0x1_0000_0000
  }

  /** An address represents a text or an array. */
  ghost predicate ValueAt(memory: seq<U8>, address: U64, v: Value)
    decreases v, 0
  {
    var o := Object(address);
    match v
    case Scalar(_) => false
    case Unknown(_) => false
    case Text(rope, _) => RopeAt(memory, address, rope)
    case Items(items) =>
      && o + 8 + 4 * |items| <= |memory|
      && WordAt(memory, o) in {3, 5} && WordAt(memory, o + 4) == |items|
      && forall i :: 0 <= i < |items| ==> ItemAt(memory, WordAt(memory, o + 8 + 4 * i), items[i])
  }

  /** A word represents a value: a compact integer if even, an address if odd. */
  ghost predicate ItemAt(memory: seq<U8>, word: U64, v: Value)
    decreases v, 1
  {
    match v
    case Scalar(n) => IsCompact(n) && word == Compact(n)
    case Unknown(w) =>
      && word == w && word % 2 == 1
      && (Object(word) + 4 > |memory| || !IsTag(WordAt(memory, Object(word))))
    case _ => word % 2 == 1 && ValueAt(memory, word, v)
  }
}
