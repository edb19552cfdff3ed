/** The printer of heap objects prints what the bytes represent. */
module HeapDecoding {
  import opened HeapPrinter
  import opened LinearMemory
  import opened Powers
  import opened TextEncoding
  import opened Words
  import opened Wrappers

  // ----- decoding returns what is represented ----------------------------------------------

  /** A loader that finds the bytes of a memory, words and single bytes. */
  ghost predicate Reads(load: Loader, memory: seq<U8>) {
    && (forall a: U64, off: nat :: ToU32(a) + off + 4 <= |memory| ==>
          load(a, off, I32Load) == Some(WordAt(memory, ToU32(a) + off)))
    && (forall a: U64, off: nat :: ToU32(a) + off < |memory| ==>
          load(a, off, I32Load8U) == Some(memory[ToU32(a) + off]))
  }

  /** The loads of the interpreter do. */
  lemma LoadHeapReads(memory: seq<U8>)
    requires |memory| <= MAX_MEMORY
    ensures Reads(LoadHeap(memory), memory)
  {
    forall a: U64, off: nat | ToU32(a) + off + 4 <= |memory|
      ensures LoadHeap(memory)(a, off, I32Load) == Some(WordAt(memory, ToU32(a) + off))
    {
      assert ToU32(off) == off;
      LoadWord(memory, a, off);
    }
    forall a: U64, off: nat | ToU32(a) + off < |memory|
      ensures LoadHeap(memory)(a, off, I32Load8U) == Some(memory[ToU32(a) + off])
    {
      assert ToU32(off) == off;
      LoadByte(memory, a, off);
    }
  }

  lemma LoadWord(memory: seq<U8>, address: U64, offset: U32)
    requires |memory| <= MAX_MEMORY && ToU32(address) + offset + 4 <= |memory|
    ensures Load(memory, address, offset, I32Load.Access()) == Ok(WordAt(memory, ToU32(address) + offset))
  {
    var ea := ToU32(address) + offset;
    LoadMeaning(memory, address, offset, I32Load.Access());
    FromLeWord(memory[ea..ea + 4]);
  }

  lemma FromLeWord(b: seq<U8>)
    requires |b| == 4
    ensures FromLe(b) == Word(b[0], b[1], b[2], b[3])
  {
    var b1, b2, b3 := b[1..], b[2..], b[3..];
    assert b1[1..] == b2 && b2[1..] == b3 && b3[1..] == [];
    assert FromLe(b3) == b[3];
    assert FromLe(b2) == b[2] + 0x100 * FromLe(b3);
    assert FromLe(b1) == b[1] + 0x100 * FromLe(b2);
  }

  lemma LoadByte(memory: seq<U8>, address: U64, offset: U32)
    requires |memory| <= MAX_MEMORY && ToU32(address) + offset < |memory|
    ensures Load(memory, address, offset, I32Load8U.Access()) == Ok(memory[ToU32(address) + offset])
  {
    var ea := ToU32(address) + offset;
    LoadMeaning(memory, address, offset, I32Load8U.Access());
    var b := memory[ea..ea + 1];
    assert b[1..] == [] && FromLe(b) == b[0];
  }

  // ----- what a loader finds, and what is printed of it --------------------------------------

  /** A rope as the loader finds it. */
  ghost predicate RopeFound(load: Loader, address: U64, r: Rope)
    decreases r
  {
    match r
    case Leaf(bytes) =>
      && load(address, 1, I32Load) == Some(27) && load(address, 5, I32Load) == Some(|bytes|)
      && forall i: nat :: i < |bytes| ==> load(address, 9 + i, I32Load8U) == Some(bytes[i])
    case Node(left, right) =>
      && load(address, 1, I32Load) == Some(37) && load(address, 5, I32Load).Some?
      && load(address, 9, I32Load).Some? && load(address, 13, I32Load).Some?
      && RopeFound(load, load(address, 9, I32Load).value, left)
      && RopeFound(load, load(address, 13, I32Load).value, right)
  }

  lemma {:induction false} RopeIsFound(load: Loader, memory: seq<U8>, address: U64, r: Rope)
    requires Reads(load, memory) && RopeAt(memory, address, r)
    ensures RopeFound(load, address, r)
    decreases r
  {
    match r
    case Leaf(bytes) => LeafIsFound(load, memory, address, bytes);
    case Node(left, right) =>
      var a1, a2 := NodeIsFound(load, memory, address);
      RopeIsFound(load, memory, a1, left);
      RopeIsFound(load, memory, a2, right);
  }

  lemma LeafIsFound(load: Loader, memory: seq<U8>, address: U64, bytes: seq<U8>)
    requires Reads(load, memory) && RopeAt(memory, address, Leaf(bytes))
    ensures RopeFound(load, address, Leaf(bytes))
  {
    var o := Object(address);
    assert load(address, 1, I32Load) == Some(WordAt(memory, o));
    assert load(address, 5, I32Load) == Some(WordAt(memory, o + 4));
    forall i: nat | i < |bytes|
      ensures load(address, 9 + i, I32Load8U) == Some(bytes[i])
    {
      assert bytes[i] == memory[o + 8 + i];
    }
  }

  /** The words of a concatenation node, among them the addresses of its halves. */
  lemma NodeIsFound(load: Loader, memory: seq<U8>, address: U64) returns (a1: U32, a2: U32)
    requires Reads(load, memory) && Object(address) + 16 <= |memory|
    ensures var o := Object(address);
            && a1 == WordAt(memory, o + 8) && a2 == WordAt(memory, o + 12)
            && load(address, 1, I32Load) == Some(WordAt(memory, o)) && load(address, 5, I32Load).Some?
            && load(address, 9, I32Load) == Some(a1) && load(address, 13, I32Load) == Some(a2)
  {
    var o := Object(address);
    a1, a2 := WordAt(memory, o + 8), WordAt(memory, o + 12);
  }

  lemma {:induction false} BlobIsPrinted(load: Loader, address: U64, bytes: seq<U8>, n: nat)
    requires n <= |bytes|
    requires forall i: nat :: i < |bytes| ==> load(address, 9 + i, I32Load8U) == Some(bytes[i])
    ensures BlobChars(load, address, n) == Shown(Chars(bytes[..n]))
  {
    if n > 0 {
      BlobIsPrinted(load, address, bytes, n - 1);
      assert load(address, 9 + (n - 1), I32Load8U) == Some(bytes[n - 1]);
      assert Chars(bytes[..n]) == Chars(bytes[..n - 1]) + [CharFrom(bytes[n - 1])];
    }
  }

  lemma {:induction false} FoundRopeIsPrinted(env: Env, load: Loader, address: U64, r: Rope, ty: ValType,
                                              helpers: bool, depth: nat)
    requires RopeFound(load, address, r) && RopeHeight(r) <= depth
    ensures DisplayLocal(env, load, address, ty, helpers, depth) == Shown(Chars(Flatten(r)))
    decreases r
  {
    match r
    case Leaf(bytes) =>
      BlobIsPrinted(load, address, bytes, |bytes|);
      assert bytes[..|bytes|] == bytes;
    case Node(left, right) =>
      FoundRopeIsPrinted(env, load, load(address, 9, I32Load).value, left, I32, false, depth - 1);
      FoundRopeIsPrinted(env, load, load(address, 13, I32Load).value, right, I32, false, depth - 1);
      CharsConcat(Flatten(left), Flatten(right));
  }

  /** A value as the loader finds it. */
  ghost predicate ValueFound(load: Loader, address: U64, v: Value)
    decreases v, 0
  {
    match v
    case Scalar(_) => false
    case Unknown(_) => false
    case Text(rope, _) => RopeFound(load, address, rope)
    case Items(items) =>
      && load(address, 1, I32Load) in {Some(3), Some(5)} && load(address, 5, I32Load) == Some(|items|)
      && forall i: nat :: i < |items| ==>
           load(address, 9 + i * 4, I32Load).Some? && ItemFound(load, load(address, 9 + i * 4, I32Load).value, items[i])
  }

  ghost predicate ItemFound(load: Loader, word: U64, v: Value)
    decreases v, 1
  {
    match v
    case Scalar(n) => IsCompact(n) && word == Compact(n)
    case Unknown(w) => word == w && word % 2 == 1 && IsUnknown(load, word)
    case _ => word % 2 == 1 && ValueFound(load, word, v)
  }

  /** No tag can be read at the address, or none that is known. */
  ghost predicate IsUnknown(load: Loader, address: U64) {
    load(address, 1, I32Load).None? || !IsTag(load(address, 1, I32Load).value)
  }

  lemma {:induction false} ValueIsFound(load: Loader, memory: seq<U8>, address: U64, v: Value)
    requires Reads(load, memory) && ReadsOnly(load, memory) && ValueAt(memory, address, v)
    ensures ValueFound(load, address, v)
    decreases v, 0
  {
    match v
    case Text(rope, _) => RopeIsFound(load, memory, address, rope);
    case Items(items) =>
      HeaderIsFound(load, memory, address);
      forall i: nat | i < |items|
        ensures load(address, 9 + i * 4, I32Load).Some?
        ensures ItemFound(load, load(address, 9 + i * 4, I32Load).value, items[i])
      {
        var word := ItemWord(load, memory, address, i);
        ItemIsFound(load, memory, word, items[i]);
      }
  }

  lemma HeaderIsFound(load: Loader, memory: seq<U8>, address: U64)
    requires Reads(load, memory) && Object(address) + 8 <= |memory|
    ensures load(address, 1, I32Load) == Some(WordAt(memory, Object(address)))
    ensures load(address, 5, I32Load) == Some(WordAt(memory, Object(address) + 4))
  {
  }

  lemma ItemWord(load: Loader, memory: seq<U8>, address: U64, i: nat) returns (word: U32)
    requires Reads(load, memory) && Object(address) + 8 + 4 * i + 4 <= |memory|
    ensures word == WordAt(memory, Object(address) + 8 + 4 * i)
    ensures load(address, 9 + i * 4, I32Load) == Some(word)
  {
    word := WordAt(memory, Object(address) + 8 + 4 * i);
  }

  lemma {:induction false} ItemIsFound(load: Loader, memory: seq<U8>, word: U64, v: Value)
    requires Reads(load, memory) && ReadsOnly(load, memory)
    requires ItemAt(memory, word, v) && word < 0x1_0000_0000
    ensures ItemFound(load, word, v)
    decreases v, 1
  {
    match v
    case Scalar(_) =>
    case Unknown(_) => UnknownIsFound(load, memory, word);
    case _ => ValueIsFound(load, memory, word, v);
  }

  lemma UnknownIsFound(load: Loader, memory: seq<U8>, word: U64)
    requires Reads(load, memory) && ReadsOnly(load, memory)
    requires Object(word) + 4 > |memory| || !IsTag(WordAt(memory, Object(word)))
    ensures IsUnknown(load, word)
  {
    if load(word, 1, I32Load).Some? {
      assert load(word, 1, I32Load) == Some(WordAt(memory, ToU32(word) + 1));
    }
  }

  lemma {:induction false} FoundValueIsPrinted(env: Env, load: Loader, address: U64, v: Value, helpers: bool, depth: nat)
    requires ValueFound(load, address, v) && Height(v) <= depth
    ensures DisplayLocal(env, load, address, I32, helpers, depth) == Shown(Print(env, AsShown(v)))
    decreases v, 2, 0
  {
    match v
    case Text(rope, _) => FoundRopeIsPrinted(env, load, address, rope, I32, helpers, depth);
    case Items(items) => FoundItemsArePrinted(env, load, address, v, helpers, depth - 1, |items|);
  }

  lemma {:induction false} FoundItemsArePrinted(env: Env, load: Loader, address: U64, v: Value, helpers: bool,
                                                depth: nat, n: nat)
    requires v.Items? && ValueFound(load, address, v)
    requires n <= |v.items| && Tallest(v, |v.items|) <= depth
    ensures Elements(env, load, address, I32, helpers, depth, n) == Shown(PrintItems(env, AsShown(v), n))
    decreases v, 1, n
  {
    if n > 0 {
      FoundItemsArePrinted(env, load, address, v, helpers, depth, n - 1);
      FoundElementIsPrinted(env, load, address, v, helpers, depth, n - 1);
    }
  }

  lemma {:induction false} FoundElementIsPrinted(env: Env, load: Loader, address: U64, v: Value, helpers: bool,
                                                 depth: nat, i: nat)
    requires v.Items? && ValueFound(load, address, v)
    requires i < |v.items| && Tallest(v, |v.items|) <= depth
    ensures Element(env, load, address, I32, helpers, depth, i) == Shown(Print(env, AsShown(v).items[i]))
    decreases v, 1, 0
  {
    TallestBounds(v, |v.items|, i);
    assert load(address, 9 + i * 4, I32Load).Some?;
    var word := load(address, 9 + i * 4, I32Load).value;
    FoundItemIsPrinted(env, load, word, v.items[i], helpers, depth);
    ElementFound(env, load, address, word, helpers, depth, i);
  }

  lemma ElementFound(env: Env, load: Loader, address: U64, word: U64, helpers: bool, depth: nat, i: nat)
    requires load(address, 9 + i * 4, I32Load) == Some(word)
    ensures Element(env, load, address, I32, helpers, depth, i) == DisplayVal(env, load, word, I32, helpers, depth)
  {
    assert TAG_OFFSET + ARRAY_DATA_OFFSET + i * I32Load.Access().bytes == 9 + i * 4;
  }

  lemma {:induction false} FoundItemIsPrinted(env: Env, load: Loader, word: U64, v: Value, helpers: bool, depth: nat)
    requires ItemFound(load, word, v) && Height(v) <= depth
    ensures DisplayVal(env, load, word, I32, helpers, depth) == Shown(Print(env, AsShown(v)))
    decreases v, 3, 0
  {
    match v
    case Scalar(_) =>
    case Unknown(_) => UnknownIsPrinted(env, load, word, helpers, depth);
    case _ => FoundValueIsPrinted(env, load, word, v, helpers, depth);
  }

  /** The error of an address without a known object is replaced by the word as a float. */
  lemma UnknownIsPrinted(env: Env, load: Loader, word: U64, helpers: bool, depth: nat)
    requires word % 2 == 1 && IsUnknown(load, word) && depth > 0
    ensures DisplayVal(env, load, word, I32, helpers, depth) == Shown(env.formatF64(word))
  {
  }

  /** An address that represents a finite rope is printed, in any context and with its height as a
      sufficient depth, as the in-order concatenation of the leaf bytes. */
  lemma RopeIsFlattened(env: Env, memory: seq<U8>, address: U64, r: Rope, ty: ValType, helpers: bool, depth: nat)
    requires |memory| <= MAX_MEMORY && RopeAt(memory, address, r) && RopeHeight(r) <= depth
    ensures DisplayLocal(env, LoadHeap(memory), address, ty, helpers, depth) == Shown(Chars(Flatten(r)))
  {
    LoadHeapReads(memory);
    RopeIsFound(LoadHeap(memory), memory, address, r);
    FoundRopeIsPrinted(env, LoadHeap(memory), address, r, ty, helpers, depth);
  }

  /** Heaps whose ropes flatten to the same bytes print the same text, whatever their shapes. */
  lemma EqualFlatteningsPrintAlike(env: Env, m: seq<U8>, a: U64, r: Rope, m': seq<U8>, a': U64, r': Rope,
                                   ty: ValType, helpers: bool, depth: nat)
    requires |m| <= MAX_MEMORY && |m'| <= MAX_MEMORY
    requires RopeAt(m, a, r) && RopeAt(m', a', r') && Flatten(r) == Flatten(r')
    requires RopeHeight(r) <= depth && RopeHeight(r') <= depth
    ensures DisplayLocal(env, LoadHeap(m), a, ty, helpers, depth)
            == DisplayLocal(env, LoadHeap(m'), a', ty, helpers, depth)
  {
    RopeIsFlattened(env, m, a, r, ty, helpers, depth);
    RopeIsFlattened(env, m', a', r', ty, helpers, depth);
  }

  /** Arrays of 32-bit words, nested to any depth, of compact integers, ropes, arrays and addresses of
      nothing known are printed as the values they represent, except that negative integers are 2^31 too high and that texts
      come out byte by byte. */
  lemma ValueIsPrintedAsShown(env: Env, memory: seq<U8>, address: U64, v: Value, helpers: bool, depth: nat)
    requires |memory| <= MAX_MEMORY && ValueAt(memory, address, v) && Height(v) <= depth
    ensures DisplayLocal(env, LoadHeap(memory), address, I32, helpers, depth) == Shown(Print(env, AsShown(v)))
  {
    LoadHeapReads(memory);
    LoadHeapReadsOnly(memory);
    ValueIsFound(LoadHeap(memory), memory, address, v);
    FoundValueIsPrinted(env, LoadHeap(memory), address, v, helpers, depth);
  }

  /** ... so they are printed as what they represent exactly if no integer in them is negative and no
      text goes beyond ASCII. */
  lemma ValueIsPrinted(env: Env, memory: seq<U8>, address: U64, v: Value, helpers: bool, depth: nat)
    requires |memory| <= MAX_MEMORY && ValueAt(memory, address, v) && Height(v) <= depth
    requires IsEncoded(v) && IsDecimal(env.formatInt)
    ensures DisplayLocal(env, LoadHeap(memory), address, I32, helpers, depth) == Shown(Print(env, v)) <==> IsPlain(v)
  {
    ValueIsPrintedAsShown(env, memory, address, v, helpers, depth);
    if IsPlain(v) {
      PlainAsShown(v);
    }
    if Print(env, AsShown(v)) == Print(env, v) {
      PrintedAlike(env, v, "", "");
    }
  }

  /** A rope with the bytes of a text is printed, in any context, as that text exactly if it is ASCII. */
  lemma TextIsPrintedIffAscii(env: Env, memory: seq<U8>, address: U64, r: Rope, t: string, ty: ValType,
                              helpers: bool, depth: nat)
    requires |memory| <= MAX_MEMORY && RopeAt(memory, address, r) && RopeHeight(r) <= depth
    requires Flatten(r) == Utf8(t)
    ensures DisplayLocal(env, LoadHeap(memory), address, ty, helpers, depth) == Shown(t) <==> IsAscii(t)
  {
    RopeIsFlattened(env, memory, address, r, ty, helpers, depth);
    CharsOfUtf8(t);
  }

  /** The letter e with an acute accent, a text of two bytes. */
  lemma AccentIsTwoCharacters(env: Env, memory: seq<U8>, address: U64, ty: ValType, helpers: bool)
    requires |memory| <= MAX_MEMORY && RopeAt(memory, address, Leaf(Utf8("\U{E9}")))
    ensures DisplayLocal(env, LoadHeap(memory), address, ty, helpers, 1) == Shown("\U{C3}\U{A9}")
  {
    var t := "\U{E9}";
    assert t[1..] == [] && Utf8(t) == [0xC3, 0xA9];
    RopeIsFlattened(env, memory, address, Leaf(Utf8(t)), ty, helpers, 1);
    assert Chars(Utf8(t)) == "\U{C3}\U{A9}";
  }

  /** What is known of the formatting of integers: different texts for different integers, and no
      comma in them. */
  ghost predicate IsDecimal(formatInt: int -> string) {
    && (forall a, b :: formatInt(a) == formatInt(b) ==> a == b)
    && (forall a :: ',' !in formatInt(a))
  }

  /** Such a format exists: one stroke for each unit, after a sign. */
  function Strokes(n: int): string {
    if n < 0 then "-" + seq(-n, _ => 'I') else seq(n, _ => 'I')
  }

  lemma StrokesAreDecimal()
    ensures IsDecimal(Strokes)
  {
    forall a, b | Strokes(a) == Strokes(b)
      ensures a == b
    {
      StrokesCount(a);
      StrokesCount(b);
    }
  }

  lemma StrokesCount(n: int)
    ensures |Strokes(n)| == if n < 0 then 1 - n else n
    ensures n < 0 <==> Strokes(n) != [] && Strokes(n)[0] == '-'
  {
  }

  lemma {:induction false} PlainAsShown(v: Value)
    requires IsPlain(v) && IsEncoded(v)
    ensures AsShown(v) == v
  {
    match v
    case Scalar(_) =>
    case Unknown(_) =>
    case Text(_, text) => CharsOfUtf8(text);
    case Items(items) =>
      forall i | 0 <= i < |items|
        ensures AsShown(items[i]) == items[i]
      {
        PlainAsShown(items[i]);
      }
      assert AsShown(v).items == items;
  }

  lemma CommaPlace(s: string, x: string)
    requires ',' !in s && x != [] && x[0] == ','
    ensures (s + x)[|s|] == ',' && forall k :: 0 <= k < |s| ==> (s + x)[k] != ','
  {
  }

  /** Texts without a comma, each followed by one, are told apart by it. */
  lemma CommaEnds(s: string, x: string, t: string, y: string)
    requires ',' !in s && ',' !in t && s + x == t + y
    requires x != [] && x[0] == ',' && y != [] && y[0] == ','
    ensures s == t && x == y
  {
    CommaPlace(s, x);
    CommaPlace(t, y);
    assert |s| == |t|;
    assert (s + x)[..|s|] == s && (t + y)[..|t|] == t;
    SamePrefix(s, x, y);
  }

  lemma SamePrefix(p: string, s: string, t: string)
    requires p + s == p + t
    ensures s == t
  {
    assert (p + s)[|p|..] == s && (p + t)[|p|..] == t;
  }

  /** If what is shown of a value cannot be told from the value, the value is plain; a comma ends it
      if more follows. */
  lemma {:induction false} PrintedAlike(env: Env, v: Value, x: string, y: string)
    requires IsDecimal(env.formatInt) && IsEncoded(v)
    requires Print(env, v) + x == Print(env, AsShown(v)) + y
    requires v.Scalar? ==> x != [] && x[0] == ',' && y != [] && y[0] == ','
    requires v.Text? ==> x == [] || x[0] == ','
    ensures IsPlain(v) && x == y
    decreases v, 1, 0
  {
    match v
    case Scalar(n) => CommaEnds(env.formatInt(n), x, env.formatInt(AsShown(v).n), y);
    case Unknown(word) => SamePrefix(env.formatF64(word), x, y);
    case Text(_, text) => TextPrintedAlike(text, x, y);
    case Items(items) =>
      var a, b := PrintItems(env, v, |items|), PrintItems(env, AsShown(v), |items|);
      assert "[" + (a + ("]" + x)) == Print(env, v) + x;
      assert "[" + (b + ("]" + y)) == Print(env, AsShown(v)) + y;
      SamePrefix("[", a + ("]" + x), b + ("]" + y));
      ItemsPrintedAlike(env, v, |items|, "]" + x, "]" + y);
      SamePrefix("]", x, y);
  }

  lemma TextPrintedAlike(text: string, x: string, y: string)
    requires text + x == Chars(Utf8(text)) + y && (x == [] || x[0] == ',')
    ensures IsAscii(text) && x == y
  {
    Utf8KeepsAscii();
    TextEnds(EncodeChar, text, x, y);
  }

  lemma {:induction false} ItemsPrintedAlike(env: Env, v: Value, n: nat, x: string, y: string)
    requires IsDecimal(env.formatInt) && IsEncoded(v)
    requires v.Items? && n <= |v.items|
    requires PrintItems(env, v, n) + x == PrintItems(env, AsShown(v), n) + y
    ensures (forall i :: 0 <= i < n ==> IsPlain(v.items[i])) && x == y
    decreases v, 0, n
  {
    if n > 0 {
      var i := n - 1;
      var s, t := Print(env, v.items[i]), Print(env, AsShown(v.items[i]));
      var a, b := PrintItems(env, v, i), PrintItems(env, AsShown(v), i);
      assert PrintItems(env, v, n) + x == a + (s + (", " + x));
      assert PrintItems(env, AsShown(v), n) + y == b + (t + (", " + y));
      ItemsPrintedAlike(env, v, i, s + (", " + x), t + (", " + y));
      PrintedAlike(env, v.items[i], ", " + x, ", " + y);
      SamePrefix(", ", x, y);
    } else {
      assert PrintItems(env, v, n) + x == x && PrintItems(env, AsShown(v), n) + y == y;
    }
  }

  // ----- laying out ropes ------------------------------------------------------------------

  /** The bytes that a rope's objects take. */
  function Size(r: Rope): nat {
    match r
    case Leaf(bytes) => 8 + |bytes|
    case Node(left, right) => Size(left) + Size(right) + 16
  }

  lemma AppendWord(memory: seq<U8>, n: U32) returns (grown: seq<U8>)
    ensures memory <= grown && |grown| == |memory| + 4 && WordAt(grown, |memory|) == n
  {
    var b, o := ToLe(n, 4), |memory|;
    grown := memory + b;
    FromToLe(n, 4);
    FromLeWord(b);
    Pow2Values();
    assert grown[o] == b[0] && grown[o + 1] == b[1] && grown[o + 2] == b[2] && grown[o + 3] == b[3];
  }

  lemma WordStays(memory: seq<U8>, grown: seq<U8>, at: nat)
    requires memory <= grown && at + 4 <= |memory|
    ensures WordAt(grown, at) == WordAt(memory, at)
  {
  }

  lemma AppendTwoWords(memory: seq<U8>, n0: U32, n1: U32) returns (grown: seq<U8>)
    ensures memory <= grown && |grown| == |memory| + 8
    ensures WordAt(grown, |memory|) == n0 && WordAt(grown, |memory| + 4) == n1
  {
    var m1 := AppendWord(memory, n0);
    grown := AppendWord(m1, n1);
    WordStays(m1, grown, |memory|);
  }

  lemma AppendFourWords(memory: seq<U8>, n0: U32, n1: U32, n2: U32, n3: U32) returns (grown: seq<U8>)
    ensures memory <= grown && |grown| == |memory| + 16
    ensures WordAt(grown, |memory|) == n0 && WordAt(grown, |memory| + 4) == n1
    ensures WordAt(grown, |memory| + 8) == n2 && WordAt(grown, |memory| + 12) == n3
  {
    var m1 := AppendTwoWords(memory, n0, n1);
    grown := AppendTwoWords(m1, n2, n3);
    WordStays(m1, grown, |memory|);
    WordStays(m1, grown, |memory| + 4);
  }

  /** A rope that is there, whatever is written behind it. */
  ghost predicate IsLaid(memory: seq<U8>, address: U32, r: Rope) {
    forall grown | memory <= grown :: RopeAt(grown, address, r)
  }

  lemma AppendLeaf(memory: seq<U8>, bytes: seq<U8>) returns (grown: seq<U8>, address: U32)
    requires 1 <= |memory| && |memory| + Size(Leaf(bytes)) <= MAX_MEMORY
    ensures memory <= grown && |grown| == |memory| + Size(Leaf(bytes)) && IsLaid(grown, address, Leaf(bytes))
  {
    var m := AppendTwoWords(memory, 27, |bytes|);
    grown, address := m + bytes, |memory| - 1;
    forall m' | grown <= m'
      ensures RopeAt(m', address, Leaf(bytes))
    {
      LeafStays(memory, m, m', address, bytes);
    }
  }

  lemma LeafStays(memory: seq<U8>, grown: seq<U8>, m: seq<U8>, address: U32, bytes: seq<U8>)
    requires memory <= grown && address + 1 == |memory| && |memory| + 8 == |grown|
    requires grown + bytes <= m
    requires WordAt(grown, |memory|) == 27 && WordAt(grown, |memory| + 4) == |bytes|
    ensures RopeAt(m, address, Leaf(bytes))
  {
    WordStays(grown, m, |memory|);
    WordStays(grown, m, |memory| + 4);
    assert Object(address) == |memory|;
    assert m[|grown|..|grown| + |bytes|] == bytes;
  }

  lemma AppendNode(memory: seq<U8>, a1: U32, left: Rope, a2: U32, right: Rope)
    returns (grown: seq<U8>, address: U32)
    requires 1 <= |memory| && |memory| + 16 <= MAX_MEMORY
    requires IsLaid(memory, a1, left) && IsLaid(memory, a2, right)
    ensures memory <= grown && |grown| == |memory| + 16 && IsLaid(grown, address, Node(left, right))
  {
    grown := AppendFourWords(memory, 37, 0, a1, a2);
    address := |memory| - 1;
    forall m | grown <= m
      ensures RopeAt(m, address, Node(left, right))
    {
      NodeStays(memory, grown, m, address, a1, left, a2, right);
    }
  }

  lemma NodeStays(memory: seq<U8>, grown: seq<U8>, m: seq<U8>, address: U32, a1: U32, left: Rope, a2: U32, right: Rope)
    requires memory <= grown <= m && address + 1 == |memory| && |memory| + 16 <= |grown|
    requires WordAt(grown, |memory|) == 37 && WordAt(grown, |memory| + 8) == a1 && WordAt(grown, |memory| + 12) == a2
    requires IsLaid(memory, a1, left) && IsLaid(memory, a2, right)
    ensures RopeAt(m, address, Node(left, right))
  {
    WordStays(grown, m, |memory|);
    WordStays(grown, m, |memory| + 8);
    WordStays(grown, m, |memory| + 12);
    assert Object(address) == |memory|;
    assert memory <= m;
  }

  lemma {:induction false} AppendRope(memory: seq<U8>, r: Rope) returns (grown: seq<U8>, address: U32)
    requires 1 <= |memory| && |memory| + Size(r) <= MAX_MEMORY
    ensures memory <= grown && |grown| == |memory| + Size(r) && IsLaid(grown, address, r)
    decreases r
  {
    match r
    case Leaf(bytes) =>
      grown, address := AppendLeaf(memory, bytes);
    case Node(left, right) =>
      var m1, a1 := AppendRope(memory, left);
      var m2, a2 := AppendRope(m1, right);
      assert IsLaid(m2, a1, left);
      grown, address := AppendNode(m2, a1, left, a2, right);
  }

  /** Every rope that fits a memory can be laid out in it, after any contents, and is printed as its
      flattening. */
  lemma LaidOutRopeIsPrinted(env: Env, memory: seq<U8>, r: Rope) returns (grown: seq<U8>, address: U32)
    requires 1 <= |memory| && |memory| + Size(r) <= MAX_MEMORY
    ensures memory <= grown && RopeAt(grown, address, r)
    ensures DisplayLocal(env, LoadHeap(grown), address, I32, true, RopeHeight(r)) == Shown(Chars(Flatten(r)))
  {
    grown, address := AppendRope(memory, r);
    RopeIsFlattened(env, grown, address, r, I32, true, RopeHeight(r));
  }

  // ----- where decoding does not return what is represented ---------------------------------

  /** A half of the concatenation at `address` lies in `t`. */
  ghost predicate HalfIn(load: Loader, address: U64, offset: nat, t: set<U64>) {
    load(address, offset, I32Load).Some? && load(address, offset, I32Load).value in t
  }

  /** Concatenations each of which has a half among them: whoever follows those halves never leaves. */
  ghost predicate IsCycle(load: Loader, t: set<U64>) {
    forall a {:trigger load(a, 1, I32Load)} :: a in t ==> load(a, 1, I32Load) == Some(37) && (HalfIn(load, a, 9, t) || HalfIn(load, a, 13, t))
  }

  /** A rope that contains itself, however indirectly and in whichever half, is never printed. */
  lemma {:induction false} CycleIsNotPrinted(env: Env, load: Loader, t: set<U64>, address: U64, ty: ValType,
                                             helpers: bool, depth: nat)
    requires IsCycle(load, t) && address in t
    ensures !DisplayLocal(env, load, address, ty, helpers, depth).Shown?
    decreases depth
  {
    if depth > 0 {
      if HalfIn(load, address, 9, t) {
        CycleIsNotPrinted(env, load, t, load(address, 9, I32Load).value, I32, false, depth - 1);
      } else {
        CycleIsNotPrinted(env, load, t, load(address, 13, I32Load).value, I32, false, depth - 1);
      }
    }
  }

  /** If it is the left halves that never leave, the stack overflows whatever the right halves are. */
  lemma {:induction false} LeftCycleOverflows(env: Env, load: Loader, t: set<U64>, address: U64, ty: ValType,
                                              helpers: bool, depth: nat)
    requires forall a :: a in t ==> load(a, 1, I32Load) == Some(37) && HalfIn(load, a, 9, t)
                                    && load(a, 5, I32Load).Some? && load(a, 13, I32Load).Some?
    requires address in t
    ensures DisplayLocal(env, load, address, ty, helpers, depth) == Overflowed
    decreases depth
  {
    if depth > 0 {
      LeftCycleOverflows(env, load, t, load(address, 9, I32Load).value, I32, false, depth - 1);
    }
  }

  /** Addresses of texts: text blobs and concatenations, with the halves of all concatenations. */
  ghost predicate IsTextHeap(load: Loader, s: set<U64>) {
    forall a {:trigger load(a, 1, I32Load)} :: a in s ==>
      || load(a, 1, I32Load) == Some(27)
      || (&& load(a, 1, I32Load) == Some(37)
          && (load(a, 9, I32Load).Some? ==> HalfIn(load, a, 9, s))
          && (load(a, 13, I32Load).Some? ==> HalfIn(load, a, 13, s)))
  }

  /** The objects lie within the memory. */
  ghost predicate IsReadable(load: Loader, s: set<U64>) {
    forall a {:trigger load(a, 1, I32Load)} :: a in s ==>
      && load(a, 5, I32Load).Some?
      && (load(a, 1, I32Load) == Some(37) ==> load(a, 9, I32Load).Some? && load(a, 13, I32Load).Some?)
      && (load(a, 1, I32Load) == Some(27) ==> AreReadable(load, a, load(a, 5, I32Load).value))
  }

  function BlobByte(load: Loader, address: U64, i: nat): Option<U64> { load(address, 9 + i, I32Load8U) }

  ghost predicate AreReadable(load: Loader, address: U64, n: nat) {
    forall i: nat :: i < n ==> BlobByte(load, address, i).Some?
  }

  ghost predicate LoadsBytes(load: Loader) {
    forall a: U64, off: nat :: load(a, off, I32Load8U).Some? ==> load(a, off, I32Load8U).value < 0x100
  }

  lemma LoadHeapLoadsBytes(memory: seq<U8>)
    requires |memory| <= MAX_MEMORY
    ensures LoadsBytes(LoadHeap(memory))
  {
    forall a: U64, off: nat | LoadHeap(memory)(a, off, I32Load8U).Some?
      ensures LoadHeap(memory)(a, off, I32Load8U).value < 0x100
    {
      LoadMeaning(memory, a, ToU32(off), I32Load8U.Access());
      LoadByte(memory, a, ToU32(off));
    }
  }

  ghost predicate HasRope(load: Loader, address: U64) {
    exists r :: RopeFound(load, address, r)
  }

  /** A blob with readable bytes is a leaf. */
  lemma BlobIsLeaf(load: Loader, address: U64)
    requires load(address, 1, I32Load) == Some(27) && load(address, 5, I32Load).Some? && LoadsBytes(load)
    requires AreReadable(load, address, load(address, 5, I32Load).value)
    ensures HasRope(load, address)
  {
    var n := load(address, 5, I32Load).value;
    var bytes: seq<U8> := seq(n, i requires 0 <= i < n => BlobByte(load, address, i).value);
    assert RopeFound(load, address, Leaf(bytes));
  }

  lemma HalvesMakeNode(load: Loader, address: U64)
    requires load(address, 1, I32Load) == Some(37) && load(address, 5, I32Load).Some?
    requires load(address, 9, I32Load).Some? && HasRope(load, load(address, 9, I32Load).value)
    requires load(address, 13, I32Load).Some? && HasRope(load, load(address, 13, I32Load).value)
    ensures HasRope(load, address)
  {
    var l :| RopeFound(load, load(address, 9, I32Load).value, l);
    var r :| RopeFound(load, load(address, 13, I32Load).value, r);
    assert RopeFound(load, address, Node(l, r));
  }

  lemma {:induction false} PrintedBlobIsReadable(load: Loader, address: U64, n: nat)
    requires BlobChars(load, address, n).Shown?
    ensures AreReadable(load, address, n)
  {
    if n > 0 {
      PrintedBlobIsReadable(load, address, n - 1);
      assert BlobByte(load, address, n - 1).Some?;
    }
  }

  /** What is printed at a text address is a rope. */
  lemma {:induction false} PrintedIsRope(env: Env, load: Loader, s: set<U64>, address: U64, ty: ValType,
                                         helpers: bool, depth: nat)
    requires LoadsBytes(load) && IsTextHeap(load, s) && address in s
    requires DisplayLocal(env, load, address, ty, helpers, depth).Shown?
    ensures HasRope(load, address)
    decreases depth
  {
    if load(address, 1, I32Load) == Some(27) {
      PrintedBlobIsReadable(load, address, load(address, 5, I32Load).value);
      BlobIsLeaf(load, address);
    } else {
      PrintedIsRope(env, load, s, load(address, 9, I32Load).value, I32, false, depth - 1);
      PrintedIsRope(env, load, s, load(address, 13, I32Load).value, I32, false, depth - 1);
      HalvesMakeNode(load, address);
    }
  }

  ghost predicate IsPrinted(env: Env, load: Loader, address: U64, ty: ValType, helpers: bool) {
    exists depth: nat :: DisplayLocal(env, load, address, ty, helpers, depth).Shown?
  }

  /** A loader that finds nothing outside the memory. */
  ghost predicate ReadsOnly(load: Loader, memory: seq<U8>) {
    && (forall a: U64, off: U32 :: load(a, off, I32Load).Some? ==> ToU32(a) + off + 4 <= |memory|)
    && (forall a: U64, off: U32 :: load(a, off, I32Load8U).Some? ==> ToU32(a) + off < |memory|)
  }

  lemma OkIsInBounds(memory: seq<U8>, address: U64, offset: U32, l: Layout)
    requires |memory| <= MAX_MEMORY && Load(memory, address, offset, l).Ok?
    ensures ToU32(address) + offset + l.bytes <= |memory|
  {
    LoadMeaning(memory, address, offset, l);
  }

  lemma FoundIsInBounds(memory: seq<U8>, address: U64, offset: U32, op: LoadOp)
    requires |memory| <= MAX_MEMORY && LoadHeap(memory)(address, offset, op).Some?
    ensures ToU32(address) + offset + op.Access().bytes <= |memory|
  {
    assert ToU32(offset) == offset;
    OkIsInBounds(memory, address, offset, op.Access());
  }

  lemma LoadHeapReadsOnly(memory: seq<U8>)
    requires |memory| <= MAX_MEMORY
    ensures ReadsOnly(LoadHeap(memory), memory)
  {
    forall a: U64, off: U32 | LoadHeap(memory)(a, off, I32Load).Some?
      ensures ToU32(a) + off + 4 <= |memory|
    {
      FoundIsInBounds(memory, a, off, I32Load);
    }
    forall a: U64, off: U32 | LoadHeap(memory)(a, off, I32Load8U).Some?
      ensures ToU32(a) + off < |memory|
    {
      FoundIsInBounds(memory, a, off, I32Load8U);
    }
  }

  /** The longest text whose bytes have offsets of 32 bits: 9 of them come before. */
  const MAX_LEAF: nat := 0xFFFF_FFF7

  predicate ShortLeaves(r: Rope) {
    match r
    case Leaf(bytes) => |bytes| <= MAX_LEAF
    case Node(left, right) => ShortLeaves(left) && ShortLeaves(right)
  }

  lemma FoundBytesAreThere(load: Loader, memory: seq<U8>, address: U64, bytes: seq<U8>)
    requires ReadsOnly(load, memory) && Reads(load, memory)
    requires Object(address) + 8 <= |memory| && |bytes| <= MAX_LEAF
    requires forall i: nat :: i < |bytes| ==> load(address, 9 + i, I32Load8U) == Some(bytes[i])
    ensures var o := Object(address); o + 8 + |bytes| <= |memory| && memory[o + 8..o + 8 + |bytes|] == bytes
  {
    var o := Object(address);
    if bytes != [] {
      var last := |bytes| - 1;
      assert load(address, 9 + last, I32Load8U) == Some(bytes[last]);
    }
    forall i: nat | i < |bytes|
      ensures memory[o + 8 + i] == bytes[i]
    {
      assert load(address, 9 + i, I32Load8U) == Some(bytes[i]);
    }
  }

  lemma FoundNodeIsThere(load: Loader, memory: seq<U8>, address: U64)
    requires ReadsOnly(load, memory) && Reads(load, memory)
    requires load(address, 1, I32Load).Some? && load(address, 9, I32Load).Some? && load(address, 13, I32Load).Some?
    ensures var o := Object(address);
            && o + 16 <= |memory| && load(address, 1, I32Load) == Some(WordAt(memory, o))
            && load(address, 9, I32Load) == Some(WordAt(memory, o + 8))
            && load(address, 13, I32Load) == Some(WordAt(memory, o + 12))
  {
  }

  lemma FoundLeafIsThere(load: Loader, memory: seq<U8>, address: U64, bytes: seq<U8>)
    requires ReadsOnly(load, memory) && Reads(load, memory)
    requires RopeFound(load, address, Leaf(bytes)) && |bytes| <= MAX_LEAF
    ensures RopeAt(memory, address, Leaf(bytes))
  {
    assert load(address, 1, I32Load) == Some(WordAt(memory, Object(address)));
    assert load(address, 5, I32Load) == Some(WordAt(memory, Object(address) + 4));
    FoundBytesAreThere(load, memory, address, bytes);
  }

  lemma {:induction false} FoundRopeIsThere(load: Loader, memory: seq<U8>, address: U64, r: Rope)
    requires ReadsOnly(load, memory) && Reads(load, memory)
    requires RopeFound(load, address, r) && ShortLeaves(r)
    ensures RopeAt(memory, address, r)
    decreases r
  {
    match r
    case Leaf(bytes) => FoundLeafIsThere(load, memory, address, bytes);
    case Node(left, right) =>
      FoundNodeIsThere(load, memory, address);
      FoundRopeIsThere(load, memory, load(address, 9, I32Load).value, left);
      FoundRopeIsThere(load, memory, load(address, 13, I32Load).value, right);
  }

  lemma {:induction false} RopesThereAreShort(memory: seq<U8>, address: U64, r: Rope)
    requires |memory| <= MAX_MEMORY && RopeAt(memory, address, r)
    ensures ShortLeaves(r)
    decreases r
  {
    if r.Node? {
      var o := Object(address);
      RopesThereAreShort(memory, WordAt(memory, o + 8), r.left);
      RopesThereAreShort(memory, WordAt(memory, o + 12), r.right);
    }
  }

  /** A rope is found exactly where there is one, as long as the offsets of its bytes fit 32 bits. */
  lemma RopeFoundIffThere(memory: seq<U8>, address: U64, r: Rope)
    requires |memory| <= MAX_MEMORY
    ensures RopeAt(memory, address, r) <==> RopeFound(LoadHeap(memory), address, r) && ShortLeaves(r)
  {
    LoadHeapReads(memory);
    LoadHeapReadsOnly(memory);
    if RopeAt(memory, address, r) {
      RopeIsFound(LoadHeap(memory), memory, address, r);
      RopesThereAreShort(memory, address, r);
    }
    if RopeFound(LoadHeap(memory), address, r) && ShortLeaves(r) {
      FoundRopeIsThere(LoadHeap(memory), memory, address, r);
    }
  }

  lemma FoundByteInBounds(load: Loader, memory: seq<U8>, address: U64, bytes: seq<U8>, i: nat)
    requires ReadsOnly(load, memory) && RopeFound(load, address, Leaf(bytes))
    requires i < |bytes| && i < MAX_LEAF
    ensures ToU32(address) + 9 + i < |memory|
  {
    assert load(address, 9 + i, I32Load8U) == Some(bytes[i]);
  }

  /** Leaves that are too long are found only in a memory of all 2^32 bytes. */
  lemma {:induction false} FoundRopesAreShort(load: Loader, memory: seq<U8>, address: U64, r: Rope)
    requires |memory| < MAX_MEMORY && ReadsOnly(load, memory) && RopeFound(load, address, r)
    ensures ShortLeaves(r)
    decreases r
  {
    match r
    case Leaf(bytes) =>
      if |bytes| > MAX_LEAF {
        FoundByteInBounds(load, memory, address, bytes, MAX_LEAF - 1);
      }
    case Node(left, right) =>
      FoundRopesAreShort(load, memory, load(address, 9, I32Load).value, left);
      FoundRopesAreShort(load, memory, load(address, 13, I32Load).value, right);
  }

  /** There the offsets of a text at address 0 wrap instead of trapping: it is found, and printed, with
      a length that the memory cannot hold. */
  lemma OverlongTextIsFound(env: Env, memory: seq<U8>, ty: ValType, helpers: bool) returns (bytes: seq<U8>)
    requires |memory| == MAX_MEMORY && WordAt(memory, 1) == 27 && WordAt(memory, 5) > MAX_LEAF
    ensures |bytes| == WordAt(memory, 5)
    ensures RopeFound(LoadHeap(memory), 0, Leaf(bytes)) && !RopeAt(memory, 0, Leaf(bytes))
    ensures DisplayLocal(env, LoadHeap(memory), 0, ty, helpers, 1) == Shown(Chars(bytes))
  {
    var n := WordAt(memory, 5);
    bytes := seq(n, i requires 0 <= i < n => memory[ToU32(9 + i)]);
    LoadHeapReads(memory);
    forall i: nat | i < n
      ensures LoadHeap(memory)(0, 9 + i, I32Load8U) == Some(bytes[i])
    {
      WrappedByte(memory, i);
    }
    HeaderMakesLeaf(LoadHeap(memory), memory, bytes);
    OverlongIsNotThere(memory, bytes);
    LeafIsPrinted(env, LoadHeap(memory), 0, bytes, ty, helpers);
  }

  lemma OverlongIsNotThere(memory: seq<U8>, bytes: seq<U8>)
    requires |memory| <= MAX_MEMORY && |bytes| > MAX_LEAF
    ensures !RopeAt(memory, 0, Leaf(bytes))
  {
  }

  lemma LeafIsPrinted(env: Env, load: Loader, address: U64, bytes: seq<U8>, ty: ValType, helpers: bool)
    requires RopeFound(load, address, Leaf(bytes))
    ensures DisplayLocal(env, load, address, ty, helpers, 1) == Shown(Chars(bytes))
  {
    FoundRopeIsPrinted(env, load, address, Leaf(bytes), ty, helpers, 1);
  }

  lemma WrappedByte(memory: seq<U8>, i: nat)
    requires |memory| == MAX_MEMORY
    ensures LoadHeap(memory)(0, 9 + i, I32Load8U) == Some(memory[ToU32(9 + i)])
  {
    LoadByte(memory, 0, ToU32(9 + i));
  }

  lemma HeaderMakesLeaf(load: Loader, memory: seq<U8>, bytes: seq<U8>)
    requires |memory| == MAX_MEMORY && Reads(load, memory)
    requires WordAt(memory, 1) == 27 && WordAt(memory, 5) == |bytes|
    requires forall i: nat :: i < |bytes| ==> load(0, 9 + i, I32Load8U) == Some(bytes[i])
    ensures RopeFound(load, 0, Leaf(bytes))
  {
    assert load(0, 1, I32Load) == Some(WordAt(memory, ToU32(0) + 1));
    assert load(0, 5, I32Load) == Some(WordAt(memory, ToU32(0) + 5));
  }

  lemma OverlongTextExists(env: Env) returns (memory: seq<U8>, bytes: seq<U8>)
    ensures |memory| == MAX_MEMORY && |bytes| == 0xFFFF_FFFF
    ensures RopeFound(LoadHeap(memory), 0, Leaf(bytes)) && !RopeAt(memory, 0, Leaf(bytes))
  {
    memory := seq(MAX_MEMORY, i => if i == 1 then 27 else if 5 <= i < 9 then 0xFF else 0);
    bytes := OverlongTextIsFound(env, memory, I32, true);
  }

  lemma PrintedIffRope(env: Env, load: Loader, s: set<U64>, address: U64, ty: ValType, helpers: bool)
    requires LoadsBytes(load) && IsTextHeap(load, s) && address in s
    ensures IsPrinted(env, load, address, ty, helpers) <==> HasRope(load, address)
  {
    if IsPrinted(env, load, address, ty, helpers) {
      var depth: nat :| DisplayLocal(env, load, address, ty, helpers, depth).Shown?;
      PrintedIsRope(env, load, s, address, ty, helpers, depth);
    }
    if HasRope(load, address) {
      var r :| RopeFound(load, address, r);
      FoundRopeIsPrinted(env, load, address, r, ty, helpers, RopeHeight(r));
    }
  }

  /** Among texts, printing succeeds at some depth exactly where there is a finite rope. */
  lemma TextIsPrintedIffRope(env: Env, memory: seq<U8>, s: set<U64>, address: U64, ty: ValType, helpers: bool)
    requires |memory| <= MAX_MEMORY && IsTextHeap(LoadHeap(memory), s) && address in s
    ensures IsPrinted(env, LoadHeap(memory), address, ty, helpers) <==> HasRope(LoadHeap(memory), address)
  {
    LoadHeapLoadsBytes(memory);
    PrintedIffRope(env, LoadHeap(memory), s, address, ty, helpers);
  }

  ghost predicate IsRope(memory: seq<U8>, address: U64) {
    exists r :: RopeAt(memory, address, r)
  }

  /** The same on the bytes: among texts, printing succeeds at some depth exactly where the bytes
      represent a finite rope, unless the memory is full and a blob claims too great a length. */
  lemma TextIsPrintedIffRopeThere(env: Env, memory: seq<U8>, s: set<U64>, address: U64, ty: ValType, helpers: bool)
    requires |memory| <= MAX_MEMORY && IsTextHeap(LoadHeap(memory), s) && address in s
    ensures IsRope(memory, address) ==> IsPrinted(env, LoadHeap(memory), address, ty, helpers)
    ensures |memory| < MAX_MEMORY || NoLongBlob(LoadHeap(memory), s) ==>
              (IsPrinted(env, LoadHeap(memory), address, ty, helpers) <==> IsRope(memory, address))
  {
    TextIsPrintedIffRope(env, memory, s, address, ty, helpers);
    forall r | RopeAt(memory, address, r)
      ensures HasRope(LoadHeap(memory), address)
    {
      RopeFoundIffThere(memory, address, r);
    }
    if (|memory| < MAX_MEMORY || NoLongBlob(LoadHeap(memory), s)) && HasRope(LoadHeap(memory), address) {
      var r :| RopeFound(LoadHeap(memory), address, r);
      if |memory| < MAX_MEMORY {
        LoadHeapReadsOnly(memory);
        FoundRopesAreShort(LoadHeap(memory), memory, address, r);
      } else {
        BlobsAreShort(LoadHeap(memory), s, address, r);
      }
      RopeFoundIffThere(memory, address, r);
    }
  }

  ghost predicate NoLongBlob(load: Loader, s: set<U64>) {
    forall a :: a in s && load(a, 1, I32Load) == Some(27) && load(a, 5, I32Load).Some? ==>
      load(a, 5, I32Load).value <= MAX_LEAF
  }

  lemma {:induction false} BlobsAreShort(load: Loader, s: set<U64>, address: U64, r: Rope)
    requires IsTextHeap(load, s) && NoLongBlob(load, s) && address in s && RopeFound(load, address, r)
    ensures ShortLeaves(r)
    decreases r
  {
    if r.Node? {
      BlobsAreShort(load, s, load(address, 9, I32Load).value, r.left);
      BlobsAreShort(load, s, load(address, 13, I32Load).value, r.right);
    }
  }

  /** Readable texts without a rope have halves without a rope. */
  lemma RopelessIsCycle(load: Loader, s: set<U64>)
    requires LoadsBytes(load) && IsTextHeap(load, s) && IsReadable(load, s)
    ensures IsCycle(load, set a | a in s && !HasRope(load, a))
  {
    var t := set a | a in s && !HasRope(load, a);
    forall a | a in t
      ensures load(a, 1, I32Load) == Some(37) && (HalfIn(load, a, 9, t) || HalfIn(load, a, 13, t))
    {
      if load(a, 1, I32Load) == Some(27) {
        BlobIsLeaf(load, a);
      } else if !HalfIn(load, a, 9, t) && !HalfIn(load, a, 13, t) {
        HalvesMakeNode(load, a);
      }
    }
  }

  ghost predicate ReachesCycle(load: Loader, s: set<U64>, address: U64) {
    exists t :: t <= s && address in t && IsCycle(load, t)
  }

  lemma RopeIffNoCycle(load: Loader, s: set<U64>, address: U64)
    requires LoadsBytes(load) && IsTextHeap(load, s) && IsReadable(load, s) && address in s
    ensures HasRope(load, address) <==> !ReachesCycle(load, s, address)
  {
    if !HasRope(load, address) {
      RopelessIsCycle(load, s);
      var t := set a | a in s && !HasRope(load, a);
      assert t <= s && address in t && IsCycle(load, t);
    } else if ReachesCycle(load, s, address) {
      var r :| RopeFound(load, address, r);
      var t :| t <= s && address in t && IsCycle(load, t);
      CycleHasNoRope(load, t, address, r);
      assert false;
    }
  }

  /** Going down a finite rope one cannot stay in a cycle. */
  lemma {:induction false} CycleHasNoRope(load: Loader, t: set<U64>, address: U64, r: Rope)
    requires IsCycle(load, t) && address in t
    ensures !RopeFound(load, address, r)
    decreases r
  {
    if r.Node? {
      assert load(address, 1, I32Load) == Some(37);
      if HalfIn(load, address, 9, t) {
        CycleHasNoRope(load, t, load(address, 9, I32Load).value, r.left);
      } else {
        CycleHasNoRope(load, t, load(address, 13, I32Load).value, r.right);
      }
    }
  }

  /** Among readable texts, printing succeeds at some depth exactly for those that reach no cycle;
      the others overflow the stack at every depth. */
  lemma TextIsPrintedIffNoCycle(env: Env, memory: seq<U8>, s: set<U64>, address: U64, ty: ValType, helpers: bool)
    requires |memory| <= MAX_MEMORY && address in s
    requires IsTextHeap(LoadHeap(memory), s) && IsReadable(LoadHeap(memory), s)
    ensures IsPrinted(env, LoadHeap(memory), address, ty, helpers) <==> !ReachesCycle(LoadHeap(memory), s, address)
    ensures !IsPrinted(env, LoadHeap(memory), address, ty, helpers) ==>
              forall depth: nat :: DisplayLocal(env, LoadHeap(memory), address, ty, helpers, depth) == Overflowed
  {
    LoadHeapLoadsBytes(memory);
    PrintedIffRope(env, LoadHeap(memory), s, address, ty, helpers);
    RopeIffNoCycle(LoadHeap(memory), s, address);
    UnprintedOverflows(env, LoadHeap(memory), s, address, ty, helpers);
  }

  /** A memory whose only object is its own left and right half. */
  lemma SelfContainingRope(env: Env, ty: ValType, helpers: bool) returns (memory: seq<U8>)
    ensures |memory| == 17 && WordAt(memory, 1) == 37 && WordAt(memory, 9) == 0 && WordAt(memory, 13) == 0
    ensures IsTextHeap(LoadHeap(memory), {0}) && IsReadable(LoadHeap(memory), {0})
    ensures ReachesCycle(LoadHeap(memory), {0}, 0) && !IsPrinted(env, LoadHeap(memory), 0, ty, helpers)
  {
    memory := AppendFourWords([0], 37, 0, 0, 0);
    LoadHeapReads(memory);
    var load := LoadHeap(memory);
    assert load(0, 1, I32Load) == Some(WordAt(memory, ToU32(0) + 1));
    assert load(0, 5, I32Load) == Some(WordAt(memory, ToU32(0) + 5));
    assert load(0, 9, I32Load) == Some(WordAt(memory, ToU32(0) + 9));
    assert load(0, 13, I32Load) == Some(WordAt(memory, ToU32(0) + 13));
    var t: set<U64> := {0};
    assert t <= {0} && 0 in t && IsCycle(load, t);
    TextIsPrintedIffNoCycle(env, memory, t, 0, ty, helpers);
  }

  lemma UnprintedOverflows(env: Env, load: Loader, s: set<U64>, address: U64, ty: ValType, helpers: bool)
    requires IsTextHeap(load, s) && IsReadable(load, s) && address in s
    ensures !IsPrinted(env, load, address, ty, helpers) ==>
              forall depth: nat :: DisplayLocal(env, load, address, ty, helpers, depth) == Overflowed
  {
    forall depth: nat
      ensures var o := DisplayLocal(env, load, address, ty, helpers, depth); o.Shown? || o == Overflowed
    {
      ReadableTextDoesNotFail(env, load, s, address, ty, helpers, depth);
    }
  }

  lemma {:induction false} ReadableTextDoesNotFail(env: Env, load: Loader, s: set<U64>, address: U64, ty: ValType,
                                                   helpers: bool, depth: nat)
    requires IsTextHeap(load, s) && IsReadable(load, s) && address in s
    ensures var o := DisplayLocal(env, load, address, ty, helpers, depth); o.Shown? || o == Overflowed
    decreases depth
  {
    if depth > 0 {
      if load(address, 1, I32Load) == Some(27) {
        ReadableLeafIsPrinted(env, load, address, ty, helpers, depth);
      } else {
        var a1, a2 := ReadableHalves(load, s, address);
        ReadableTextDoesNotFail(env, load, s, a1, I32, false, depth - 1);
        ReadableTextDoesNotFail(env, load, s, a2, I32, false, depth - 1);
        NodeOfOutcomes(env, load, address, a1, a2, ty, helpers, depth - 1);
      }
    }
  }

  lemma ReadableHalves(load: Loader, s: set<U64>, address: U64) returns (a1: U64, a2: U64)
    requires IsTextHeap(load, s) && IsReadable(load, s) && address in s && load(address, 1, I32Load) != Some(27)
    ensures load(address, 1, I32Load) == Some(37) && load(address, 5, I32Load).Some?
    ensures load(address, 9, I32Load) == Some(a1) && load(address, 13, I32Load) == Some(a2) && a1 in s && a2 in s
  {
    a1, a2 := load(address, 9, I32Load).value, load(address, 13, I32Load).value;
  }

  lemma ReadableLeafIsPrinted(env: Env, load: Loader, address: U64, ty: ValType, helpers: bool, depth: nat)
    requires load(address, 1, I32Load) == Some(27) && load(address, 5, I32Load).Some?
    requires depth > 0 && AreReadable(load, address, load(address, 5, I32Load).value)
    ensures DisplayLocal(env, load, address, ty, helpers, depth).Shown?
  {
    ReadableBlobIsPrinted(load, address, load(address, 5, I32Load).value);
  }

  lemma NodeOfOutcomes(env: Env, load: Loader, address: U64, a1: U64, a2: U64, ty: ValType, helpers: bool, depth: nat)
    requires load(address, 1, I32Load) == Some(37) && load(address, 5, I32Load).Some?
    requires load(address, 9, I32Load) == Some(a1) && load(address, 13, I32Load) == Some(a2)
    requires var o := DisplayLocal(env, load, a1, I32, false, depth); o.Shown? || o == Overflowed
    requires var o := DisplayLocal(env, load, a2, I32, false, depth); o.Shown? || o == Overflowed
    ensures var o := DisplayLocal(env, load, address, ty, helpers, depth + 1); o.Shown? || o == Overflowed
  {
    assert DisplayLocal(env, load, address, ty, helpers, depth + 1) == Concat(env, load, address, depth);
  }

  lemma {:induction false} ReadableBlobIsPrinted(load: Loader, address: U64, n: nat)
    requires AreReadable(load, address, n)
    ensures BlobChars(load, address, n).Shown?
  {
    if n > 0 {
      ReadableBlobIsPrinted(load, address, n - 1);
      assert BlobByte(load, address, n - 1).Some?;
    }
  }

  /** The shift back is logical: a compact integer is printed as itself exactly when it is not
      negative, and otherwise 2^31 too high. */
  lemma CompactIntShown(env: Env, load: Loader, n: int, helpers: bool, depth: nat)
    requires IsCompact(n) && IsDecimal(env.formatInt)
    ensures var shown := DisplayVal(env, load, Compact(n), I32, helpers, depth);
            && (shown == Shown(env.formatInt(n)) <==> n >= 0)
            && (n < 0 ==> shown == Shown(env.formatInt(n + 0x8000_0000)))
  {
  }

  // ----- the depth bound --------------------------------------------------------------------

  /** The bound on the depth stands for the stack: once it suffices, a larger one changes nothing. */
  lemma {:induction false} DeeperDisplay(env: Env, load: Loader, address: U64, ty: ValType, helpers: bool, depth: nat)
    requires DisplayLocal(env, load, address, ty, helpers, depth) != Overflowed
    ensures DisplayLocal(env, load, address, ty, helpers, depth + 1) == DisplayLocal(env, load, address, ty, helpers, depth)
    decreases depth, 0, 0
  {
    var tag := load(address, TAG_OFFSET, I32Load);
    if tag in {Some(3), Some(5)} {
      var len := load(address, TAG_OFFSET + DATA_OFFSET, I32Load);
      if len.Some? {
        DeeperElements(env, load, address, ty, helpers, depth - 1, len.value);
      }
    } else if tag == Some(37) {
      DeeperConcat(env, load, address, depth - 1);
    }
  }

  lemma {:induction false} DeeperConcat(env: Env, load: Loader, address: U64, depth: nat)
    requires Concat(env, load, address, depth) != Overflowed
    ensures Concat(env, load, address, depth + 1) == Concat(env, load, address, depth)
    decreases depth, 1, 0
  {
    var hash := load(address, TAG_OFFSET + DATA_OFFSET, I32Load);
    var text1 := load(address, TAG_OFFSET + ARRAY_DATA_OFFSET, I32Load);
    var text2 := load(address, TAG_OFFSET + ARRAY_DATA_OFFSET + 4, I32Load);
    if hash.Some? && text1.Some? && text2.Some? {
      DeeperDisplay(env, load, text1.value, I32, false, depth);
      if DisplayLocal(env, load, text1.value, I32, false, depth).Shown? {
        DeeperDisplay(env, load, text2.value, I32, false, depth);
      }
    }
  }

  lemma {:induction false} DeeperElements(env: Env, load: Loader, address: U64, ty: ValType, helpers: bool,
                                          depth: nat, n: nat)
    requires Elements(env, load, address, ty, helpers, depth, n) != Overflowed
    ensures Elements(env, load, address, ty, helpers, depth + 1, n) == Elements(env, load, address, ty, helpers, depth, n)
    decreases depth, 2, n
  {
    if n > 0 {
      DeeperElements(env, load, address, ty, helpers, depth, n - 1);
      if Elements(env, load, address, ty, helpers, depth, n - 1).Shown? {
        DeeperElement(env, load, address, ty, helpers, depth, n - 1);
      }
    }
  }

  lemma {:induction false} DeeperElement(env: Env, load: Loader, address: U64, ty: ValType, helpers: bool,
                                         depth: nat, i: nat)
    requires Element(env, load, address, ty, helpers, depth, i) != Overflowed
    ensures Element(env, load, address, ty, helpers, depth + 1, i) == Element(env, load, address, ty, helpers, depth, i)
    decreases depth, 1, 1
  {
    if ElementLoad(ty).Some? {
      var op := ElementLoad(ty).value;
      var v := load(address, TAG_OFFSET + ARRAY_DATA_OFFSET + i * op.Access().bytes, op);
      if v.Some? && !(v.value % 2 == 0 && !ty.IsFloat()) {
        DeeperDisplay(env, load, v.value, ty, helpers, depth);
      }
    }
  }
}
