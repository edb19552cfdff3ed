/** What the printer does with each kind of heap object, in places and bytes of the memory. */
module HeapObjects {
  import opened HeapPrinter
  import opened HeapDecoding
  import opened LinearMemory
  import opened Powers
  import opened TextEncoding
  import opened Words
  import opened Wrappers

  /** All known tags. */
  lemma TagMeaning(tag: nat)
    ensures IsTag(tag) <==>
            tag in {1, 3, 5, 7, 9, 11, 13, 15, 17, 19, 21, 23, 25, 27, 29, 31, 33, 35, 37, 39, 41, 43, 45, 47, 49,
                    51, 52, 0xFFFF_FFFE, 0xFFFF_FFFF}
  {
  }

  // ----- loads, by the place they read -----------------------------------------------------

  /** A load from the heap: nothing outside the memory, and the little-endian bytes inside. */
  lemma HeapLoad(memory: seq<U8>, address: U64, offset: U32, op: LoadOp)
    requires |memory| <= MAX_MEMORY && op in {I32Load, I64Load, F32Load, F64Load, I32Load8U}
    ensures var at := address % 0x1_0000_0000 + offset;
            LoadHeap(memory)(address, offset, op) ==
            if at + LoadedBytes(op) <= |memory| then Some(FromLe(memory[at..at + LoadedBytes(op)])) else None
  {
    assert ToU32(offset) == offset;
    var l := op.Access();
    TableInNumbers(op);
    LoadMeaning(memory, address, offset, l);
    var at := address % 0x1_0000_0000 + offset;
    if at + l.bytes <= |memory| {
      Unsigned(l, FromLe(memory[at..at + l.bytes]), Load(memory, address, offset, l).value);
    }
  }

  lemma WordLoad(memory: seq<U8>, address: U64, offset: U32)
    requires |memory| <= MAX_MEMORY
    ensures var at := address % 0x1_0000_0000 + offset;
            LoadHeap(memory)(address, offset, I32Load) ==
            if at + 4 <= |memory| then Some(WordAt(memory, at)) else None
  {
    HeapLoad(memory, address, offset, I32Load);
    var at := address % 0x1_0000_0000 + offset;
    if at + 4 <= |memory| {
      FromLeWord(memory[at..at + 4]);
    }
  }

  /** The little-endian words of four and eight bytes at a place, if inside the memory. */
  function WordIn(memory: seq<U8>, at: nat): Option<U64> {
    if at + 4 <= |memory| then Some(WordAt(memory, at)) else None
  }

  function LongIn(memory: seq<U8>, at: nat): Option<U64> {
    if at + 8 <= |memory| then Some(WordOf(memory, at, 8)) else None
  }

  // ----- objects -----------------------------------------------------------------------------

  /** Objects that are one number, and errors: by the tag in the first word of the object, which begins
      one byte after the address, and the value in the words after it. */
  lemma ObjectMeaning(env: Env, memory: seq<U8>, address: U64, ty: ValType, helpers: bool, depth: nat)
    requires |memory| <= MAX_MEMORY && depth > 0
    ensures var o, r := address % 0x1_0000_0000 + 1, DisplayLocal(env, LoadHeap(memory), address, ty, helpers, depth);
            match WordIn(memory, o)
            case None => r == Failed
            case Some(tag) => TagOutcome(env, address, tag, WordIn(memory, o + 4), LongIn(memory, o + 4), ty, helpers, r)
  {
    var o := address % 0x1_0000_0000 + 1;
    NumberLoads(memory, address);
    if o + 4 <= |memory| {
      OneNumber(env, LoadHeap(memory), address, WordAt(memory, o), WordIn(memory, o + 4), LongIn(memory, o + 4), ty, helpers, depth);
    } else {
      NoTag(env, LoadHeap(memory), address, ty, helpers, depth);
    }
  }

  lemma NumberLoads(memory: seq<U8>, address: U64)
    requires |memory| <= MAX_MEMORY
    ensures var load, o := LoadHeap(memory), address % 0x1_0000_0000 + 1;
            && load(address, 1, I32Load) == WordIn(memory, o)
            && load(address, 5, I32Load) == load(address, 5, F32Load) == WordIn(memory, o + 4)
            && load(address, 5, F64Load) == LongIn(memory, o + 4)
  {
    WordLoad(memory, address, 1);
    WordLoad(memory, address, 5);
    SingleLoad(memory, address, 5);
    HeapLoad(memory, address, 5, F64Load);
  }

  lemma NoTag(env: Env, load: Loader, address: U64, ty: ValType, helpers: bool, depth: nat)
    requires depth > 0 && load(address, 1, I32Load).None?
    ensures DisplayLocal(env, load, address, ty, helpers, depth) == Failed
  {
  }

  lemma SingleLoad(memory: seq<U8>, address: U64, offset: U32)
    requires |memory| <= MAX_MEMORY
    ensures LoadHeap(memory)(address, offset, F32Load) == WordIn(memory, address % 0x1_0000_0000 + offset)
  {
    HeapLoad(memory, address, offset, F32Load);
    var at := address % 0x1_0000_0000 + offset;
    if at + 4 <= |memory| {
      FromLeWord(memory[at..at + 4]);
    }
  }

  /** The outcome for each tag, arrays, texts and ropes apart, by the word and the long word after it. */
  ghost predicate TagOutcome(env: Env, address: U64, tag: U64, word: Option<U64>, long: Option<U64>, ty: ValType,
                             helpers: bool, r: Outcome)
  {
    && (!IsTag(tag) ==> r == Failed)
    && (tag in {17, 23, 45} && word.None? ==> r == Failed)
    && (tag == 15 && long.None? ==> r == Failed)
    && (tag == 17 && word.Some? ==> r == Shown(env.formatWord(word.value)))
    && (tag == 23 && word.Some? ==>
          r == Shown("variant tag: " + env.formatWord(word.value) + ", value not supported yet"))
    && (tag == 45 && word.Some? ==> r == Shown(env.debugF32(word.value)))
    && (tag == 15 && long.Some? ==> r == Shown(env.debugF64(long.value)))
    && (tag == 35 ==> r == env.bigInt(address, ty, helpers))
    && (tag in {1, 7, 9, 11, 13, 19, 21, 25, 29, 31, 33, 39, 41, 43, 47, 49, 51, 52, 0xFFFF_FFFE, 0xFFFF_FFFF}
        ==> r == Shown(env.describe(address, tag, ty)))
  }

  lemma OneNumber(env: Env, load: Loader, address: U64, tag: U64, word: Option<U64>, long: Option<U64>, ty: ValType,
                  helpers: bool, depth: nat)
    requires depth > 0 && load(address, 1, I32Load) == Some(tag)
    requires load(address, 5, I32Load) == load(address, 5, F32Load) == word && load(address, 5, F64Load) == long
    ensures TagOutcome(env, address, tag, word, long, ty, helpers, DisplayLocal(env, load, address, ty, helpers, depth))
  {
    if tag in {15, 17, 23, 45} {
      assert ShowLoaded(load, address, F64Load, env.debugF64)
             == if long.None? then Failed else Shown(env.debugF64(long.value));
    }
  }

  /** A concatenation prints the text at its third word and then the text at its fourth; an outcome
      other than a text is passed on. */
  lemma ConcatMeaning(env: Env, memory: seq<U8>, address: U64, ty: ValType, helpers: bool, depth: nat)
    requires |memory| <= MAX_MEMORY && depth > 0
    requires WordIn(memory, address % 0x1_0000_0000 + 1) == Some(37)
    ensures var o, r := address % 0x1_0000_0000 + 1, DisplayLocal(env, LoadHeap(memory), address, ty, helpers, depth);
            if o + 16 > |memory| then r == Failed
            else
              var first := DisplayLocal(env, LoadHeap(memory), WordAt(memory, o + 8), I32, false, depth - 1);
              var second := DisplayLocal(env, LoadHeap(memory), WordAt(memory, o + 12), I32, false, depth - 1);
              r == if !first.Shown? then first else if !second.Shown? then second else Shown(first.text + second.text)
  {
    var o := address % 0x1_0000_0000 + 1;
    WordLoad(memory, address, 1);
    WordLoad(memory, address, 5);
    WordLoad(memory, address, 9);
    WordLoad(memory, address, 13);
    ConcatOf(env, LoadHeap(memory), address, WordIn(memory, o + 8), WordIn(memory, o + 12), ty, helpers, depth);
  }

  lemma ConcatOf(env: Env, load: Loader, address: U64, a1: Option<U64>, a2: Option<U64>, ty: ValType, helpers: bool, depth: nat)
    requires depth > 0 && load(address, 1, I32Load) == Some(37)
    requires a2.Some? ==> a1.Some? && load(address, 5, I32Load).Some?
    requires load(address, 9, I32Load) == a1 && load(address, 13, I32Load) == a2
    ensures var r := DisplayLocal(env, load, address, ty, helpers, depth);
            if a2.None? then r == Failed
            else
              var first := DisplayLocal(env, load, a1.value, I32, false, depth - 1);
              var second := DisplayLocal(env, load, a2.value, I32, false, depth - 1);
              r == if !first.Shown? then first else if !second.Shown? then second else Shown(first.text + second.text)
  {
    assert DisplayLocal(env, load, address, ty, helpers, depth) == Concat(env, load, address, depth - 1);
  }

  /** A text blob prints its bytes in order, one character each. */
  lemma BlobMeaning(env: Env, memory: seq<U8>, address: U64, ty: ValType, helpers: bool, depth: nat)
    requires |memory| <= MAX_MEMORY && depth > 0
    requires var o := address % 0x1_0000_0000 + 1;
             o + 8 <= |memory| && WordAt(memory, o) == 27 && o + 8 + WordAt(memory, o + 4) <= |memory|
    ensures var o, r := address % 0x1_0000_0000 + 1, DisplayLocal(env, LoadHeap(memory), address, ty, helpers, depth);
            && r.Shown? && |r.text| == WordAt(memory, o + 4)
            && forall i :: 0 <= i < |r.text| ==> r.text[i] == memory[o + 8 + i] as char
  {
    var o := address % 0x1_0000_0000 + 1;
    var bytes := memory[o + 8..o + 8 + WordAt(memory, o + 4)];
    RopeIsFlattened(env, memory, address, Leaf(bytes), ty, helpers, depth);
  }

  // ----- elements of arrays --------------------------------------------------------------------

  /** The bytes of an array's element, and where they are. */
  function Width(ty: ValType): nat {
    match ty
    case I64 => 8
    case F64 => 8
    case _ => 4
  }

  /** The offset of an element is a `u32`. */
  function Place(address: U64, ty: ValType, i: nat): nat {
    address % 0x1_0000_0000 + (9 + i * Width(ty)) % 0x1_0000_0000
  }

  /** The little-endian word of an element. */
  function WordOf(memory: seq<U8>, at: nat, width: nat): (w: U64)
    requires width in {4, 8} && at + width <= |memory|
    ensures w == FromLe(memory[at..at + width])
  {
    WordFits(8 * width);
    FromLe(memory[at..at + width])
  }

  /** Each element of an array, for all types: nothing but a load outside the memory is an error. An even
      integer word is half its value; any other word is printed as the object at that address, or as a
      float if there is none that can be printed. */
  lemma ElementMeaning(env: Env, memory: seq<U8>, address: U64, ty: ValType, helpers: bool, depth: nat, i: nat)
    requires |memory| <= MAX_MEMORY
    ensures var at, r := Place(address, ty, i), Element(env, LoadHeap(memory), address, ty, helpers, depth, i);
            if ty in {FuncRef, ExternRef} then r == Panicked
            else if at + Width(ty) > |memory| then r == Failed
            else
              var word := WordOf(memory, at, Width(ty));
              var there := DisplayLocal(env, LoadHeap(memory), word, ty, helpers, depth);
              r == if word % 2 == 0 && ty in {I32, I64} then Shown(env.formatInt(word / 2))
                   else if there == Failed then Shown(env.formatF64(word))
                   else there
  {
    if ty !in {FuncRef, ExternRef} {
      var at := Place(address, ty, i);
      ElementPlace(memory, address, ty, i);
      var word := if at + Width(ty) <= |memory| then Some(WordOf(memory, at, Width(ty))) else None;
      ElementOf(env, LoadHeap(memory), address, ty, helpers, depth, i, word);
      if word.Some? {
        WordBound(memory, at, ty);
        WordValue(env, LoadHeap(memory), word.value, ty, helpers, depth);
      }
    }
  }

  lemma WordBound(memory: seq<U8>, at: nat, ty: ValType)
    requires at + Width(ty) <= |memory|
    ensures Width(ty) == 4 ==> WordOf(memory, at, Width(ty)) < 0x1_0000_0000
  {
    Pow2Values();
  }

  lemma ElementOf(env: Env, load: Loader, address: U64, ty: ValType, helpers: bool, depth: nat, i: nat, word: Option<U64>)
    requires ElementLoad(ty).Some? && load(address, 9 + i * Width(ty), ElementLoad(ty).value) == word
    ensures Element(env, load, address, ty, helpers, depth, i)
            == if word.None? then Failed else DisplayVal(env, load, word.value, ty, helpers, depth)
  {
    ElementBytes(ty);
  }

  lemma ElementBytes(ty: ValType)
    requires ElementLoad(ty).Some?
    ensures var op := ElementLoad(ty).value;
            op in {I32Load, I64Load, F32Load, F64Load} && op.Access().bytes == Width(ty) == LoadedBytes(op)
  {
  }

  lemma ElementPlace(memory: seq<U8>, address: U64, ty: ValType, i: nat)
    requires |memory| <= MAX_MEMORY && ElementLoad(ty).Some?
    ensures var at := Place(address, ty, i);
            LoadHeap(memory)(address, 9 + i * Width(ty), ElementLoad(ty).value) ==
            if at + Width(ty) <= |memory| then Some(WordOf(memory, at, Width(ty))) else None
  {
    var offset := 9 + i * Width(ty);
    ElementBytes(ty);
    HeapLoad(memory, address, ToU32(offset), ElementLoad(ty).value);
    WrappedOffset(memory, address, offset, ElementLoad(ty).value);
  }

  lemma WrappedOffset(memory: seq<U8>, address: U64, offset: nat, op: LoadOp)
    ensures LoadHeap(memory)(address, offset, op) == LoadHeap(memory)(address, ToU32(offset), op)
  {
    assert ToU32(ToU32(offset)) == ToU32(offset);
  }

  lemma WordValue(env: Env, load: Loader, word: U64, ty: ValType, helpers: bool, depth: nat)
    requires ty !in {FuncRef, ExternRef}
    requires ty in {I32, F32} ==> word < 0x1_0000_0000
    ensures var there := DisplayLocal(env, load, word, ty, helpers, depth);
            DisplayVal(env, load, word, ty, helpers, depth)
            == if word % 2 == 0 && ty in {I32, I64} then Shown(env.formatInt(word / 2))
               else if there == Failed then Shown(env.formatF64(word))
               else there
  {
  }

  /** An element that is the address of nothing known, in or outside the memory, shows as a float of its
      bits, whatever the other elements are. */
  lemma UnknownElement(env: Env, memory: seq<U8>, address: U64, ty: ValType, helpers: bool, depth: nat, i: nat)
    requires |memory| <= MAX_MEMORY && depth > 0 && ty in {I32, I64, F32, F64}
    requires Place(address, ty, i) + Width(ty) <= |memory|
    requires var word := WordOf(memory, Place(address, ty, i), Width(ty));
             var o := word % 0x1_0000_0000 + 1;
             && (ty in {I32, I64} ==> word % 2 == 1)
             && (o + 4 > |memory| || !IsTag(WordAt(memory, o)))
    ensures Element(env, LoadHeap(memory), address, ty, helpers, depth, i)
            == Shown(env.formatF64(WordOf(memory, Place(address, ty, i), Width(ty))))
  {
    ElementMeaning(env, memory, address, ty, helpers, depth, i);
    ObjectMeaning(env, memory, WordOf(memory, Place(address, ty, i), Width(ty)), ty, helpers, depth);
  }

  // ----- arrays ----------------------------------------------------------------------------------

  /** The outcomes of the first `n` elements. */
  function ElementList(env: Env, load: Loader, address: U64, ty: ValType, helpers: bool, depth: nat, n: nat): (list: seq<Outcome>)
    ensures |list| == n
    ensures forall i :: 0 <= i < n ==> list[i] == Element(env, load, address, ty, helpers, depth, i)
  {
    seq(n, i requires 0 <= i < n => Element(env, load, address, ty, helpers, depth, i))
  }

  /** The texts of a list, each followed by a comma; or its first outcome that is none. */
  function Combined(list: seq<Outcome>): Outcome {
    if list == [] then Shown("")
    else
      var before, last := Combined(list[..|list| - 1]), list[|list| - 1];
      if !before.Shown? then before else if !last.Shown? then last else Shown(before.text + last.text + ", ")
  }

  ghost predicate AllShown(list: seq<Outcome>, n: nat)
    requires n <= |list|
  {
    forall i :: 0 <= i < n ==> list[i].Shown?
  }

  /** The combination is a text exactly if all outcomes are texts, and any other outcome exactly if that
      is the first of the list that is not a text. */
  lemma {:induction false} CombinedMeaning(list: seq<Outcome>)
    ensures Combined(list).Shown? <==> AllShown(list, |list|)
    ensures forall o: Outcome :: !o.Shown? ==>
              (Combined(list) == o <==> exists i :: 0 <= i < |list| && list[i] == o && AllShown(list, i))
  {
    if list != [] {
      var n := |list| - 1;
      CombinedMeaning(list[..n]);
      assert forall i :: 0 <= i < n ==> list[..n][i] == list[i];
      assert forall i :: 0 <= i <= n ==> (AllShown(list[..n], i) <==> AllShown(list, i));
    }
  }

  /** The text of two texts, and how each further text is added. */
  lemma CombinedTexts(list: seq<Outcome>, s: string, t: string)
    requires Combined(list) == Shown(s)
    ensures Combined([]) == Shown("") && Combined([Shown(s), Shown(t)]) == Shown(s + ", " + t + ", ")
    ensures Combined(list + [Shown(t)]) == Shown(s + t + ", ")
  {
    assert (list + [Shown(t)])[..|list|] == list;
    assert [Shown(s), Shown(t)][..1] == [Shown(s)] && [Shown(s)][..0] == [];
    assert Combined([Shown(s)]) == Shown("" + s + ", ");
    assert "" + s + ", " + t + ", " == s + ", " + t + ", ";
  }

  lemma {:induction false} ElementsAreCombined(env: Env, load: Loader, address: U64, ty: ValType, helpers: bool, depth: nat, n: nat)
    ensures Elements(env, load, address, ty, helpers, depth, n)
            == Combined(ElementList(env, load, address, ty, helpers, depth, n))
  {
    if n > 0 {
      ElementsAreCombined(env, load, address, ty, helpers, depth, n - 1);
      var list := ElementList(env, load, address, ty, helpers, depth, n);
      assert list[..n - 1] == ElementList(env, load, address, ty, helpers, depth, n - 1);
    }
  }

  /** An array prints the combination of its elements in brackets, or passes on what is none; it is an
      error if its length lies outside the memory. */
  lemma ArrayMeaning(env: Env, memory: seq<U8>, address: U64, ty: ValType, helpers: bool, d: nat)
    requires |memory| <= MAX_MEMORY
    requires WordIn(memory, address % 0x1_0000_0000 + 1) in {Some(3), Some(5)}
    ensures var r := DisplayLocal(env, LoadHeap(memory), address, ty, helpers, d + 1);
            match WordIn(memory, address % 0x1_0000_0000 + 5)
            case None => r == Failed
            case Some(len) =>
              var all := Combined(ElementList(env, LoadHeap(memory), address, ty, helpers, d, len));
              r == if all.Shown? then Shown("[" + all.text + "]") else all
  {
    WordLoad(memory, address, 1);
    WordLoad(memory, address, 5);
    ArrayOf(env, LoadHeap(memory), address, WordIn(memory, address % 0x1_0000_0000 + 5), ty, helpers, d);
  }

  lemma ArrayOf(env: Env, load: Loader, address: U64, len: Option<U64>, ty: ValType, helpers: bool, d: nat)
    requires load(address, 1, I32Load) in {Some(3), Some(5)} && load(address, 5, I32Load) == len
    ensures var r := DisplayLocal(env, load, address, ty, helpers, d + 1);
            match len
            case None => r == Failed
            case Some(n) =>
              var all := Combined(ElementList(env, load, address, ty, helpers, d, n));
              r == if all.Shown? then Shown("[" + all.text + "]") else all
  {
    assert DisplayLocal(env, load, address, ty, helpers, d + 1) == Array(env, load, address, ty, helpers, d);
    if len.Some? {
      ElementsAreCombined(env, load, address, ty, helpers, d, len.value);
    }
  }

  /** The element lies outside the memory, at least in part. */
  predicate IsOutside(memory: seq<U8>, address: U64, ty: ValType, i: nat) {
    Place(address, ty, i) + Width(ty) > |memory|
  }

  lemma ElementFailsOutside(env: Env, memory: seq<U8>, address: U64, ty: ValType, helpers: bool, depth: nat, i: nat)
    requires |memory| <= MAX_MEMORY && ty in {I32, I64, F32, F64}
    ensures Element(env, LoadHeap(memory), address, ty, helpers, depth, i) == Failed <==> IsOutside(memory, address, ty, i)
  {
    ElementMeaning(env, memory, address, ty, helpers, depth, i);
  }

  /** An array of numbers is an error exactly if its length, or an element that only printable ones
      precede, lies outside the memory. */
  lemma ArrayFailsIffOutside(env: Env, memory: seq<U8>, address: U64, ty: ValType, helpers: bool, d: nat)
    requires |memory| <= MAX_MEMORY && ty in {I32, I64, F32, F64}
    requires WordIn(memory, address % 0x1_0000_0000 + 1) in {Some(3), Some(5)}
    ensures var r := DisplayLocal(env, LoadHeap(memory), address, ty, helpers, d + 1);
            match WordIn(memory, address % 0x1_0000_0000 + 5)
            case None => r == Failed
            case Some(len) =>
              var list := ElementList(env, LoadHeap(memory), address, ty, helpers, d, len);
              r == Failed <==> exists i :: 0 <= i < len && IsOutside(memory, address, ty, i) && AllShown(list, i)
  {
    ArrayMeaning(env, memory, address, ty, helpers, d);
    var n := WordIn(memory, address % 0x1_0000_0000 + 5);
    if n.Some? {
      var list := ElementList(env, LoadHeap(memory), address, ty, helpers, d, n.value);
      CombinedMeaning(list);
      forall i | 0 <= i < |list|
        ensures list[i] == Failed <==> IsOutside(memory, address, ty, i)
      {
        ElementFailsOutside(env, memory, address, ty, helpers, d, i);
      }
      FailsOutside(memory, address, ty, list);
    }
  }

  lemma FailsOutside(memory: seq<U8>, address: U64, ty: ValType, list: seq<Outcome>)
    requires forall i :: 0 <= i < |list| ==> (list[i] == Failed <==> IsOutside(memory, address, ty, i))
    ensures Combined(list) == Failed <==> exists i :: 0 <= i < |list| && IsOutside(memory, address, ty, i) && AllShown(list, i)
  {
    CombinedMeaning(list);
    if i :| 0 <= i < |list| && IsOutside(memory, address, ty, i) && AllShown(list, i) {
      assert list[i] == Failed;
    }
  }
}
