/** Copies of many registers at once: when they may be done one register at a time
    (crates/ir/src/span.rs, crates/wasmi/src/engine/translator/instr_encoder.rs) and how they are
    executed (crates/wasmi/src/engine/executor/instrs/copy.rs). */
module RegisterCopies {
  import opened Words
  import opened RegisterSpans

  /** The registers of a frame, indexed by `Cell`. */
  type RegFile = s: seq<U64> | |s| == 0x1_0000 witness seq(0x1_0000, _ => 0)

  function Cell(r: Reg): (c: nat)
    ensures c < 0x1_0000
  {
    r + 0x8000
  }

  /** The source of one copied value. */
  datatype Provider = Register(reg: Reg) | Const(value: U64)

  function Read(regs: RegFile, p: Provider): U64 {
    match p
    case Register(r) => regs[Cell(r)]
    case Const(v) => v
  }

  /** The results of copying `n` values fit the register indices. */
  ghost predicate Fits(results: Reg, n: nat) {
    results + n < 0x8000
  }

  /** Copying one register after the other, in ascending order. */
  function Sequential(regs: RegFile, results: Reg, values: seq<Provider>): RegFile
    requires Fits(results, |values|)
  {
    if values == [] then regs
    else
      var n := |values| - 1;
      var before := Sequential(regs, results, values[..n]);
      before[Cell(results + n) := Read(before, values[n])]
  }

  function CopiedCell(regs: RegFile, results: Reg, values: seq<Provider>, c: nat): U64
    requires Fits(results, |values|) && c < 0x1_0000
  {
    var i := c - Cell(results);
    if 0 <= i < |values| then Read(regs, values[i]) else regs[c]
  }

  /** Copying all registers at once: every source is read before any result is written. */
  function Simultaneous(regs: RegFile, results: Reg, values: seq<Provider>): (after: RegFile)
    requires Fits(results, |values|)
  {
    var after: seq<U64> := seq(0x1_0000, c requires 0 <= c < 0x1_0000 => CopiedCell(regs, results, values, c));
    after
  }

  /** The providers of a span of registers. */
  function SpanProviders(values: Reg, len: U16): (s: seq<Provider>)
    requires Fits(values, len)
    ensures |s| == len && forall i :: 0 <= i < len ==> s[i] == Register(values + i)
  {
    seq(len, i requires 0 <= i < len => Register(values + i))
  }

  // ----- the overlap tests ---------------------------------------------------------------

  /** `RegSpan::has_overlapping_copies`. */
  function SpansOverlap(results: Reg, values: Reg, len: U16): bool
    requires Fits(results, len) && Fits(values, len)
  {
    if len <= 1 then false
    else if values >= results then false
    else PrevN(values + len, 1) >= results
  }

  /** Some value is read from a register that an earlier copy has written. */
  ghost predicate ReadsWritten(results: Reg, values: seq<Provider>) {
    exists i :: 0 <= i < |values| && values[i].Register? && results <= values[i].reg < results + i
  }

  /** `InstrEncoder::has_overlapping_copies`. */
  method ListOverlaps(results: Reg, values: seq<Provider>) returns (b: bool)
    requires Fits(results, |values|)
    ensures b <==> ReadsWritten(results, values)
    ensures b <==> exists i :: 0 <= i < |values| && values[i].Register? && results <= values[i].reg < results + i
  {
    if values == [] {
      return false;
    }
    for i := 0 to |values|
      invariant !ReadsWritten(results, values[..i])
    {
      var result := NextN(results, i);
      if values[i].Register? && results <= values[i].reg && values[i].reg < result {
        return true;
      }
    }
    assert values[..|values|] == values;
    return false;
  }

  // ----- what the assignment does ----------------------------------------------------------

  /** Result by result: each register of the results holds the old contents of the register it is
      copied from, or the constant; all other registers are as before. */
  lemma SimultaneousMeaning(regs: RegFile, results: Reg, values: seq<Provider>, r: Reg)
    requires Fits(results, |values|)
    ensures var i, after := r - results, Simultaneous(regs, results, values);
            if 0 <= i < |values| then
              match values[i]
              case Register(from) => after[r + 0x8000] == regs[from + 0x8000]
              case Const(value) => after[r + 0x8000] == value
            else after[r + 0x8000] == regs[r + 0x8000]
  {
  }

  // ----- executing the copies ------------------------------------------------------------

  /** `execute_copy_span`: through a buffer. */
  method CopySpan(cells: array<U64>, results: Reg, values: Reg, len: U16)
    requires cells.Length == 0x1_0000
    requires Fits(results, len) && Fits(values, len)
    modifies cells
    ensures cells[..] == Simultaneous(old(cells[..]), results, SpanProviders(values, len))
  {
    var tmp: seq<U64> := [];
    for i := 0 to len
      invariant |tmp| == i && forall k :: 0 <= k < i ==> tmp[k] == cells[Cell(values) + k]
    {
      tmp := tmp + [cells[Cell(NextN(values, i))]];
    }
    for i := 0 to len
      invariant forall c :: 0 <= c < 0x1_0000 ==>
        cells[c] == if 0 <= c - Cell(results) < i then tmp[c - Cell(results)] else old(cells[c])
    {
      cells[Cell(NextN(results, i))] := tmp[i];
    }
  }

  /** `execute_copy_span_non_overlapping`: register by register. */
  method CopySpanNonOverlapping(cells: array<U64>, results: Reg, values: Reg, len: U16)
    requires cells.Length == 0x1_0000
    requires Fits(results, len) && Fits(values, len)
    modifies cells
    ensures cells[..] == Sequential(old(cells[..]), results, SpanProviders(values, len))
  {
    ghost var providers := SpanProviders(values, len);
    for i := 0 to len
      invariant cells[..] == Sequential(old(cells[..]), results, providers[..i])
    {
      var value := cells[Cell(NextN(values, i))];
      cells[Cell(NextN(results, i))] := value;
      assert providers[..i + 1][..i] == providers[..i];
    }
    assert providers[..len] == providers;
  }

  method ReadCell(cells: array<U64>, p: Provider) returns (v: U64)
    requires cells.Length == 0x1_0000
    ensures v == Read(cells[..], p)
  {
    match p
    case Register(r) => v := cells[Cell(r)];
    case Const(value) => v := value;
  }

  /** `execute_copy_2`: the second value is read before the first result is written. */
  method CopyTwo(cells: array<U64>, results: Reg, v0: Provider, v1: Provider)
    requires cells.Length == 0x1_0000 && Fits(results, 2)
    modifies cells
    ensures cells[..] == Simultaneous(old(cells[..]), results, [v0, v1])
  {
    var tmp := ReadCell(cells, v1);
    var first := ReadCell(cells, v0);
    cells[Cell(results)] := first;
    cells[Cell(NextN(results, 1))] := tmp;
  }

  /** `execute_copy_many`: through a buffer. */
  method CopyMany(cells: array<U64>, results: Reg, values: seq<Provider>)
    requires cells.Length == 0x1_0000 && Fits(results, |values|)
    modifies cells
    ensures cells[..] == Simultaneous(old(cells[..]), results, values)
  {
    var tmp: seq<U64> := [];
    for i := 0 to |values|
      invariant cells[..] == old(cells[..])
      invariant |tmp| == i && forall k :: 0 <= k < i ==> tmp[k] == Read(old(cells[..]), values[k])
    {
      var v := ReadCell(cells, values[i]);
      tmp := tmp + [v];
    }
    for i := 0 to |values|
      invariant forall c :: 0 <= c < 0x1_0000 ==>
        cells[c] == if 0 <= c - Cell(results) < i then tmp[c - Cell(results)] else old(cells[c])
    {
      cells[Cell(NextN(results, i))] := tmp[i];
    }
  }

  /** `execute_copy_many_non_overlapping`: value by value. */
  method CopyManyNonOverlapping(cells: array<U64>, results: Reg, values: seq<Provider>)
    requires cells.Length == 0x1_0000 && Fits(results, |values|)
    modifies cells
    ensures cells[..] == Sequential(old(cells[..]), results, values)
  {
    for i := 0 to |values|
      invariant cells[..] == Sequential(old(cells[..]), results, values[..i])
    {
      var value := ReadCell(cells, values[i]);
      cells[Cell(NextN(results, i))] := value;
      assert values[..i + 1][..i] == values[..i];
    }
    assert values[..|values|] == values;
  }

  /** The instruction the translator picks always performs the simultaneous assignment. */
  method CopySpanAsEncoded(cells: array<U64>, results: Reg, values: Reg, len: U16)
    requires cells.Length == 0x1_0000
    requires Fits(results, len) && Fits(values, len)
    modifies cells
    ensures cells[..] == Simultaneous(old(cells[..]), results, SpanProviders(values, len))
  {
    if SpansOverlap(results, values, len) {
      CopySpan(cells, results, values, len);
    } else {
      SpanTestExact(results, values, len);
      assert Agree(old(cells[..]), results, SpanProviders(values, len));
      CopySpanNonOverlapping(cells, results, values, len);
    }
  }

  // ----- when the two ways of copying agree ----------------------------------------------

  ghost predicate Agree(regs: RegFile, results: Reg, values: seq<Provider>)
    requires Fits(results, |values|)
  {
    Sequential(regs, results, values) == Simultaneous(regs, results, values)
  }

  /** A value may be read from a register already written if that write copied the register to
      itself. */
  ghost predicate Harmless(results: Reg, values: seq<Provider>)
    requires Fits(results, |values|)
  {
    forall k, j :: 0 <= k < j < |values| && values[j] == Register(results + k) ==>
      values[k] == Register(results + k)
  }

  /** What sequential copying leaves in the `j`-th result, traced back to the initial registers. */
  function Resolve(regs: RegFile, results: Reg, values: seq<Provider>, j: nat): U64
    requires Fits(results, |values|) && j < |values|
    decreases j
  {
    match values[j]
    case Const(v) => v
    case Register(r) =>
      if results <= r < results + j then Resolve(regs, results, values, r - results) else regs[Cell(r)]
  }

  lemma {:induction false} ResolvePrefix(regs: RegFile, results: Reg, values: seq<Provider>, n: nat, j: nat)
    requires Fits(results, |values|) && j < n <= |values|
    ensures Resolve(regs, results, values[..n], j) == Resolve(regs, results, values, j)
    decreases j
  {
    if values[j].Register? && results <= values[j].reg < results + j {
      ResolvePrefix(regs, results, values, n, values[j].reg - results);
    }
  }

  lemma {:induction false} SequentialResolves(regs: RegFile, results: Reg, values: seq<Provider>, c: nat)
    requires Fits(results, |values|) && c < 0x1_0000
    ensures Sequential(regs, results, values)[c] ==
            if 0 <= c - Cell(results) < |values| then Resolve(regs, results, values, c - Cell(results))
            else regs[c]
    decreases |values|
  {
    if values != [] {
      var n := |values| - 1;
      var i := c - Cell(results);
      SequentialResolves(regs, results, values[..n], c);
      if 0 <= i < n {
        ResolvePrefix(regs, results, values, n, i);
      } else if i == n && values[n].Register? {
        var r := values[n].reg;
        SequentialResolves(regs, results, values[..n], Cell(r));
        if results <= r < results + n {
          ResolvePrefix(regs, results, values, n, r - results);
        }
      }
    }
  }

  /** Up to the first harmful read, every result resolves to its own source. */
  lemma ResolveHarmless(regs: RegFile, results: Reg, values: seq<Provider>, j: nat)
    requires Fits(results, |values|) && j < |values|
    requires forall k :: 0 <= k < j && values[j] == Register(results + k) ==> values[k] == Register(results + k)
    ensures Resolve(regs, results, values, j) == Read(regs, values[j])
  {
    if values[j].Register? && results <= values[j].reg < results + j {
      var k := values[j].reg - results;
      assert values[k] == Register(results + k);
    }
  }

  lemma HarmlessAgrees(regs: RegFile, results: Reg, values: seq<Provider>)
    requires Fits(results, |values|) && Harmless(results, values)
    ensures Agree(regs, results, values)
  {
    var s, t := Sequential(regs, results, values), Simultaneous(regs, results, values);
    assert |s| == |t|;
    forall c: nat | c < 0x1_0000
      ensures s[c] == t[c]
    {
      SequentialResolves(regs, results, values, c);
      var i := c - Cell(results);
      if 0 <= i < |values| {
        ResolveHarmless(regs, results, values, i);
      }
    }
  }

  /** A register file whose registers all differ from each other and from `avoid`. */
  function Distinct(avoid: U64): (regs: RegFile)
    ensures forall c :: 0 <= c < 0x1_0000 ==> regs[c] != avoid
    ensures forall c, d :: 0 <= c < d < 0x1_0000 ==> regs[c] != regs[d]
  {
    var base := if avoid < 0x1_0000 then 0x1_0000 else 0;
    seq(0x1_0000, c requires 0 <= c < 0x1_0000 => base + c)
  }

  /** The first harmful read makes the two ways differ on registers that are all distinct. */
  lemma HarmDisagrees(results: Reg, values: seq<Provider>, k: nat, j: nat) returns (regs: RegFile)
    requires Fits(results, |values|) && k < j < |values|
    requires values[j] == Register(results + k) && values[k] != Register(results + k)
    requires Harmless(results, values[..j])
    ensures !Agree(regs, results, values)
  {
    regs := Distinct(if values[k].Const? then values[k].value else 0);
    assert Resolve(regs, results, values, k) == Read(regs, values[k]) by {
      forall m | 0 <= m < k && values[k] == Register(results + m)
        ensures values[m] == Register(results + m)
      {
        assert values[..j][k] == values[k] && values[..j][m] == values[m];
      }
      ResolveHarmless(regs, results, values, k);
    }
    SequentialResolves(regs, results, values, Cell(results) + j);
    assert Simultaneous(regs, results, values)[Cell(results) + j] == regs[Cell(results + k)];
    assert Read(regs, values[k]) != regs[Cell(results + k)];
  }

  lemma {:induction false} FirstHarm(results: Reg, values: seq<Provider>) returns (k: nat, j: nat)
    requires Fits(results, |values|) && !Harmless(results, values)
    ensures k < j < |values|
    ensures values[j] == Register(results + k) && values[k] != Register(results + k)
    ensures Harmless(results, values[..j])
    decreases |values|
  {
    var n := |values| - 1;
    if Harmless(results, values[..n]) {
      k, j :| 0 <= k < j < |values| && values[j] == Register(results + k) && values[k] != Register(results + k);
      forall i | 0 <= i < n
        ensures values[..n][i] == values[i]
      {
      }
    } else {
      k, j := FirstHarm(results, values[..n]);
      assert values[..n][..j] == values[..j];
    }
  }

  /** Sequential copying is simultaneous copying on every register file exactly when every read of
      a register already written reads one that was copied to itself. */
  lemma AgreeIffHarmless(results: Reg, values: seq<Provider>)
    requires Fits(results, |values|)
    ensures (forall regs: RegFile :: Agree(regs, results, values)) <==> Harmless(results, values)
  {
    if Harmless(results, values) {
      forall regs: RegFile
        ensures Agree(regs, results, values)
      {
        HarmlessAgrees(regs, results, values);
      }
    } else {
      var k, j := FirstHarm(results, values);
      var regs := HarmDisagrees(results, values, k, j);
    }
  }

  /** The span test is sound and complete: it reports no overlap exactly when copying register by
      register equals the simultaneous assignment on every register file. */
  lemma SpanTestExact(results: Reg, values: Reg, len: U16)
    requires Fits(results, len) && Fits(values, len)
    ensures !SpansOverlap(results, values, len)
            <==> forall regs: RegFile :: Agree(regs, results, SpanProviders(values, len))
  {
    var providers := SpanProviders(values, len);
    AgreeIffHarmless(results, providers);
    if SpansOverlap(results, values, len) {
      var d := results - values;
      assert providers[d] == Register(results + 0) && providers[0] != Register(results + 0);
    }
  }

  /** The list test is sound, and it is complete unless the only registers read after being written
      were copied to themselves. */
  lemma ListTestSound(results: Reg, values: seq<Provider>)
    requires Fits(results, |values|)
    ensures !ReadsWritten(results, values) ==> forall regs: RegFile :: Agree(regs, results, values)
    ensures ReadsWritten(results, values) ==>
              ((exists regs: RegFile :: !Agree(regs, results, values)) <==> !Harmless(results, values))
  {
    AgreeIffHarmless(results, values);
    if !ReadsWritten(results, values) {
      assert Harmless(results, values);
    }
  }

  /** Overlap by the list test without any effect: registers 0 and 1 both copied from register 0. */
  lemma ListTestIsNotComplete()
    ensures ReadsWritten(0, [Register(0), Register(0)])
    ensures forall regs: RegFile :: Agree(regs, 0, [Register(0), Register(0)])
  {
    var values := [Register(0), Register(0)];
    assert values[1].Register? && 0 <= values[1].reg < 0 + 1;
    AgreeIffHarmless(0, values);
  }
}
