/** Encoding the copies of a list of values (crates/wasmi/src/engine/translator/instr_encoder.rs):
    dropping copies of registers to themselves, merging with the copy before, and choosing among the
    copy instructions. */
module CopyEncoding {
  import opened Words
  import opened Wrappers
  import opened RegisterSpans
  import opened RegisterCopies

  /** The copy instructions. A constant that is not encoded in the instruction has a register of the
      frame to itself and is read from there. */
  datatype Instr =
    | Copy(result: Reg, value: Provider)
    | CopyImm(result: Reg, imm: U64)
    | Copy2(results: Reg, v0: Provider, v1: Provider)
    | Span(results: Reg, head: Reg, len: U16)
    | SpanNonOverlapping(results: Reg, head: Reg, len: U16)
    | Many(results: Reg, values: seq<Provider>)
    | ManyNonOverlapping(results: Reg, values: seq<Provider>)
  {
    /** All registers named are register indices. */
    predicate Legal() {
      match this
      case Copy(result, _) => result + 1 < 0x8000
      case CopyImm(result, _) => result + 1 < 0x8000
      case Copy2(results, _, _) => results + 2 < 0x8000
      case Span(results, head, len) => results + len < 0x8000 && head + len < 0x8000
      case SpanNonOverlapping(results, head, len) => results + len < 0x8000 && head + len < 0x8000
      case Many(results, values) => results + |values| < 0x8000
      case ManyNonOverlapping(results, values) => results + |values| < 0x8000
    }
  }

  /** What an instruction does, as the executor carries it out. */
  function Execute(regs: RegFile, i: Instr): RegFile
    requires i.Legal()
  {
    match i
    case Copy(result, value) => regs[Cell(result) := Read(regs, value)]
    case CopyImm(result, imm) => regs[Cell(result) := imm]
    case Copy2(results, v0, v1) => regs[Cell(results) := Read(regs, v0)][Cell(NextN(results, 1)) := Read(regs, v1)]
    case Span(results, head, len) => Simultaneous(regs, results, SpanProviders(head, len))
    case SpanNonOverlapping(results, head, len) => Sequential(regs, results, SpanProviders(head, len))
    case Many(results, values) => Simultaneous(regs, results, values)
    case ManyNonOverlapping(results, values) => Sequential(regs, results, values)
  }

  ghost predicate AllLegal(code: seq<Instr>) {
    forall i :: 0 <= i < |code| ==> code[i].Legal()
  }

  function RunCode(regs: RegFile, code: seq<Instr>): RegFile
    requires AllLegal(code)
  {
    if code == [] then regs
    else Execute(RunCode(regs, code[..|code| - 1]), code[|code| - 1])
  }

  lemma RunPush(regs: RegFile, code: seq<Instr>, i: Instr)
    requires AllLegal(code) && i.Legal()
    ensures AllLegal(code + [i]) && RunCode(regs, code + [i]) == Execute(RunCode(regs, code), i)
  {
    assert (code + [i])[..|code|] == code;
  }

  // ----- simultaneous assignments ------------------------------------------------------------

  lemma SameFile(a: RegFile, b: RegFile)
    requires forall c: nat :: c < 0x1_0000 ==> a[c] == b[c]
    ensures a == b
  {
  }

  lemma SingleCopy(regs: RegFile, result: Reg, value: Provider)
    requires result + 1 < 0x8000
    ensures Simultaneous(regs, result, [value]) == regs[Cell(result) := Read(regs, value)]
  {
    SameFile(Simultaneous(regs, result, [value]), regs[Cell(result) := Read(regs, value)]);
  }

  lemma PairCopy(regs: RegFile, results: Reg, v0: Provider, v1: Provider)
    requires results + 2 < 0x8000
    ensures Simultaneous(regs, results, [v0, v1]) == Execute(regs, Copy2(results, v0, v1))
  {
    SameFile(Simultaneous(regs, results, [v0, v1]), Execute(regs, Copy2(results, v0, v1)));
  }

  /** A leading copy of a register to itself may be dropped. */
  lemma DropLeading(regs: RegFile, results: Reg, values: seq<Provider>)
    requires Fits(results, |values|) && values != [] && values[0] == Register(results)
    ensures Fits(results + 1, |values| - 1)
    ensures Simultaneous(regs, results, values) == Simultaneous(regs, results + 1, values[1..])
  {
    SameFile(Simultaneous(regs, results, values), Simultaneous(regs, results + 1, values[1..]));
  }

  /** The second of two copies may be dropped if it copies a register to itself. */
  lemma DropSecond(regs: RegFile, results: Reg, value: Provider)
    requires results + 2 < 0x8000
    ensures Simultaneous(regs, results, [value, Register(results + 1)]) == Simultaneous(regs, results, [value])
  {
    SameFile(Simultaneous(regs, results, [value, Register(results + 1)]), Simultaneous(regs, results, [value]));
  }

  /** Copying nothing. */
  lemma NoCopy(regs: RegFile, results: Reg)
    ensures Simultaneous(regs, results, []) == regs
  {
    SameFile(Simultaneous(regs, results, []), regs);
  }

  // ----- merging two copies --------------------------------------------------------------------

  /** `merge_copy_instrs`: the pair of copies that replaces `last` and a copy of `value` after it. */
  function MergeCopies(last: Instr, result: Reg, value: Provider): Option<Instr> {
    if value.Const? || !last.Copy? then None
    else if !(result == NextN(last.result, 1) || result == PrevN(last.result, 1)) then None
    else
      var v := if value == Register(last.result) then last.value else value;
      Some(if last.result < result then Copy2(last.result, last.value, v) else Copy2(result, v, last.value))
  }

  /** Merging happens to a copy between registers that follows one to the register before or after. */
  lemma MergesAdjacent(last: Instr, result: Reg, value: Provider)
    requires last.Legal() && result + 1 < 0x8000
    ensures MergeCopies(last, result, value).Some?
            <==> last.Copy? && value.Register? && (result == last.result + 1 || result == last.result - 1)
  {
  }

  /** One copy after the other is the merged pair of copies, which reads both values first. */
  lemma MergeKeepsMeaning(regs: RegFile, last: Instr, result: Reg, value: Provider)
    requires last.Legal() && result + 1 < 0x8000 && MergeCopies(last, result, value).Some?
    ensures var merged := MergeCopies(last, result, value).value;
            merged.Legal() && Execute(regs, merged) == Execute(Execute(regs, last), Copy(result, value))
  {
    var merged := MergeCopies(last, result, value).value;
    SameFile(Execute(regs, merged), Execute(Execute(regs, last), Copy(result, value)));
  }

  /** For a span of values the test on spans is the test on lists. */
  lemma SpansOverlapReads(results: Reg, head: Reg, len: U16, values: seq<Provider>)
    requires Fits(results, len) && Fits(head, len) && values == SpanProviders(head, len)
    ensures SpansOverlap(results, head, len)
            <==> exists j :: 0 <= j < |values| && values[j].Register? && results <= values[j].reg < results + j
  {
    if SpansOverlap(results, head, len) {
      var j := results - head;
      assert values[j].reg == results;
    }
    if j :| 0 <= j < |values| && values[j].Register? && results <= values[j].reg < results + j {
      assert values[j].reg == head + j;
    }
  }

  // ----- spans of values -----------------------------------------------------------------------

  ghost predicate IsSpan(values: seq<Provider>, head: Reg) {
    Fits(head, |values|) && values != [] && forall i :: 0 <= i < |values| ==> values[i] == Register(head + i)
  }

  lemma SpanShape(values: seq<Provider>, i: nat)
    requires i < |values|
    ensures forall head: Reg :: IsSpan(values, head) ==>
              && values[0].Register? && values[0].reg == head
              && values[i].Register? && values[i].reg == head + i
  {
    forall head: Reg | IsSpan(values, head)
      ensures values[0] == Register(head) && values[i] == Register(head + i)
    {
      assert values[0] == Register(head + 0);
    }
  }

  /** `BoundedRegSpan::from_providers`. */
  method SpanFromProviders(values: seq<Provider>) returns (r: Option<Reg>)
    ensures r.Some? ==> IsSpan(values, r.value)
    ensures r.None? ==> forall head: Reg :: !IsSpan(values, head)
  {
    if values == [] || values[0].Const? {
      return None;
    }
    var first := values[0].reg;
    var prev: Reg := first;
    for i := 1 to |values|
      invariant prev == first + i - 1
      invariant forall k :: 0 <= k < i ==> values[k].Register? && values[k].reg == first + k
    {
      if values[i].Const? || values[i].reg - prev != 1 {
        SpanShape(values, i);
        return None;
      }
      prev := values[i].reg;
    }
    if prev == 0x7FFF {
      SpanShape(values, 0);
      return None;
    }
    forall i | 0 <= i < |values|
      ensures values[i] == Register(first + i)
    {
      assert values[i].Register? && values[i].reg == first + i;
    }
    return Some(first);
  }

  /** From every register file `after` does what `before` does, and then the copies. */
  ghost predicate Copies(before: seq<Instr>, after: seq<Instr>, results: Reg, values: seq<Provider>)
    requires AllLegal(before) && AllLegal(after) && Fits(results, |values|)
  {
    forall regs: RegFile :: RunCode(regs, after) == Simultaneous(RunCode(regs, before), results, values)
  }

  // ----- the encoder ---------------------------------------------------------------------------

  class InstrEncoder {
    var code: seq<Instr>
    /** Whether the last instruction may still be changed: not so at the start and after a label. */
    var mergeable: bool
    /** Which constants their type lets a copy instruction hold. */
    const isImmediate: U64 -> bool

    ghost predicate Valid()
      reads this
    {
      AllLegal(code) && (mergeable ==> code != [])
    }

    constructor (isImmediate: U64 -> bool)
      ensures Valid() && code == [] && this.isImmediate == isImmediate
    {
      this.isImmediate := isImmediate;
      code, mergeable := [], false;
    }

    method Push(i: Instr)
      requires Valid() && i.Legal()
      modifies this
      ensures Valid() && code == old(code) + [i] && mergeable
    {
      code, mergeable := code + [i], true;
    }

    method EncodeCopy(result: Reg, value: Provider)
      requires Valid() && result + 1 < 0x8000
      modifies this
      ensures Valid() && Copies(old(code), code, result, [value])
      ensures |code| <= |old(code)| + 1
      ensures var n := |old(code)|;
              var merged := if old(mergeable) then MergeCopies(old(code)[n - 1], result, value) else None;
              code == if merged.Some? then old(code)[..n - 1] + [merged.value]
                      else if value == Register(result) then old(code)
                      else if value.Const? && isImmediate(value.value) then old(code) + [CopyImm(result, value.value)]
                      else old(code) + [Copy(result, value)]
    {
      ghost var before := code;
      if mergeable {
        var merged := MergeCopies(code[|code| - 1], result, value);
        if merged.Some? {
          code := code[..|code| - 1] + [merged.value];
          MergedCopies(before, code, merged.value, result, value);
          return;
        }
      }
      if value == Register(result) {
        IdleCopies(before, result);
        return;
      }
      var i := if value.Const? && isImmediate(value.value) then CopyImm(result, value.value) else Copy(result, value);
      PushedCopies(before, i, result, value);
      Push(i);
    }

    /** `encode_copies`. */
    method EncodeCopies(results: Reg, values: seq<Provider>)
      requires Valid() && Fits(results, |values|)
      modifies this
      ensures Valid() && Copies(old(code), code, results, values)
      ensures |code| <= |old(code)| + 1
      ensures (forall i :: 0 <= i < |values| ==> values[i] == Register(results + i)) ==> code == old(code)
      decreases |values|
    {
      ghost var before := code;
      if values != [] && values[0] == Register(results) {
        EncodeCopies(NextN(results, 1), values[1..]);
        forall regs: RegFile
          ensures RunCode(regs, code) == Simultaneous(RunCode(regs, before), results, values)
        {
          DropLeading(RunCode(regs, before), results, values);
        }
      } else if |values| == 0 {
        forall regs: RegFile
          ensures RunCode(regs, code) == Simultaneous(RunCode(regs, before), results, values)
        {
          NoCopy(RunCode(regs, before), results);
        }
      } else if |values| == 1 {
        assert values == [values[0]];
        EncodeCopy(results, values[0]);
      } else if |values| == 2 {
        assert values == [values[0], values[1]];
        EncodeTwo(results, values[0], values[1]);
      } else {
        EncodeMany(results, values);
      }
    }

    method EncodeTwo(results: Reg, v0: Provider, v1: Provider)
      requires Valid() && results + 2 < 0x8000
      modifies this
      ensures Valid() && Copies(old(code), code, results, [v0, v1])
      ensures |code| <= |old(code)| + 1
      ensures v1 != Register(results + 1) ==> code == old(code) + [Copy2(results, v0, v1)]
    {
      ghost var before := code;
      if v1 == Register(NextN(results, 1)) {
        EncodeCopy(results, v0);
        forall regs: RegFile
          ensures RunCode(regs, code) == Simultaneous(RunCode(regs, before), results, [v0, v1])
        {
          DropSecond(RunCode(regs, before), results, v0);
        }
      } else {
        Push(Copy2(results, v0, v1));
        forall regs: RegFile
          ensures RunCode(regs, code) == Simultaneous(RunCode(regs, before), results, [v0, v1])
        {
          RunPush(regs, before, Copy2(results, v0, v1));
          PairCopy(RunCode(regs, before), results, v0, v1);
        }
      }
    }

    /** Three or more copies: a span of values is copied as a span, others as a list, and each through
        a buffer exactly if a value is read from a register that an earlier copy writes. */
    method EncodeMany(results: Reg, values: seq<Provider>)
      requires Valid() && Fits(results, |values|)
      modifies this
      ensures Valid() && Copies(old(code), code, results, values)
      ensures |code| == |old(code)| + 1 && code[..|old(code)|] == old(code)
      ensures var i := code[|old(code)|];
                && ((i.Span? || i.SpanNonOverlapping?) <==> exists head: Reg :: IsSpan(values, head))
                && (i.Span? || i.Many? || i.SpanNonOverlapping? || i.ManyNonOverlapping?)
                && (i.Span? || i.Many?
                    <==> exists j :: 0 <= j < |values| && values[j].Register? && results <= values[j].reg < results + j)
    {
      ghost var before := code;
      var head := SpanFromProviders(values);
      var i: Instr;
      if head.Some? {
        var len: U16 := |values|;
        assert values == SpanProviders(head.value, len);
        SpanTestExact(results, head.value, len);
        SpansOverlapReads(results, head.value, len, values);
        i := if SpansOverlap(results, head.value, len) then Span(results, head.value, len)
             else SpanNonOverlapping(results, head.value, len);
        assert i.Span? || forall regs: RegFile :: Agree(regs, results, values);
      } else {
        var overlap := ListOverlaps(results, values);
        ListTestSound(results, values);
        i := if overlap then Many(results, values) else ManyNonOverlapping(results, values);
        assert i.Many? || forall regs: RegFile :: Agree(regs, results, values);
      }
      forall regs: RegFile
        ensures Execute(regs, i) == Simultaneous(regs, results, values)
      {
        assert i.Span? || i.Many? || Agree(regs, results, values);
      }
      Push(i);
      forall regs: RegFile
        ensures RunCode(regs, code) == Simultaneous(RunCode(regs, before), results, values)
      {
        RunPush(regs, before, i);
      }
    }
  }

  /** Replacing the last instruction by the merged one. */
  lemma MergedCopies(before: seq<Instr>, after: seq<Instr>, merged: Instr, result: Reg, value: Provider)
    requires AllLegal(before) && before != [] && result + 1 < 0x8000
    requires MergeCopies(before[|before| - 1], result, value) == Some(merged)
    requires after == before[..|before| - 1] + [merged]
    ensures AllLegal(after) && Copies(before, after, result, [value])
  {
    var rest, last := before[..|before| - 1], before[|before| - 1];
    MergeIsLegal(last, result, value);
    forall regs: RegFile
      ensures RunCode(regs, after) == Simultaneous(RunCode(regs, before), result, [value])
    {
      MergeKeepsMeaning(RunCode(regs, rest), last, result, value);
      RunPush(regs, rest, merged);
      SingleCopy(RunCode(regs, before), result, value);
    }
  }

  lemma MergeIsLegal(last: Instr, result: Reg, value: Provider)
    requires last.Legal() && result + 1 < 0x8000 && MergeCopies(last, result, value).Some?
    ensures MergeCopies(last, result, value).value.Legal()
  {
  }

  lemma PushedCopies(before: seq<Instr>, i: Instr, result: Reg, value: Provider)
    requires AllLegal(before) && result + 1 < 0x8000
    requires i == Copy(result, value) || (value.Const? && i == CopyImm(result, value.value))
    ensures AllLegal(before + [i]) && Copies(before, before + [i], result, [value])
  {
    forall regs: RegFile
      ensures RunCode(regs, before + [i]) == Simultaneous(RunCode(regs, before), result, [value])
    {
      RunPush(regs, before, i);
      SingleCopy(RunCode(regs, before), result, value);
    }
  }

  lemma IdleCopies(before: seq<Instr>, result: Reg)
    requires AllLegal(before) && result + 1 < 0x8000
    ensures Copies(before, before, result, [Register(result)])
  {
    forall regs: RegFile
      ensures RunCode(regs, before) == Simultaneous(RunCode(regs, before), result, [Register(result)])
    {
      DropLeading(RunCode(regs, before), result, [Register(result)]);
      NoCopy(RunCode(regs, before), result + 1);
    }
  }
}
