/** Register indices, spans of them and their double-ended iterator
    (crates/ir/src/index.rs, crates/ir/src/span.rs). */
module RegisterSpans {
  import opened Words
  import opened Wrappers

  type Reg = I16

  /** `wrapping_add_unsigned` on `i16`. */
  function NextN(r: Reg, n: U16): Reg {
    if r + n < 0x8000 then r + n else r + n - 0x1_0000
  }

  /** `wrapping_sub_unsigned` on `i16`. */
  function PrevN(r: Reg, n: U16): Reg {
    if r - n >= -0x8000 then r - n else r - n + 0x1_0000
  }

  /** The registers from `lo` up to, but not including, `hi`. */
  function Range(lo: Reg, hi: Reg): (s: seq<Reg>)
    requires lo <= hi
    ensures |s| == hi - lo && forall i :: 0 <= i < |s| ==> s[i] == lo + i
  {
    seq(hi - lo, i requires 0 <= i < hi - lo => lo + i)
  }

  /** The end of the sequence an iterator call takes from. */
  datatype End = Front | Back

  /** Taking from an end of the registers still to be yielded. */
  function Take(rest: seq<Reg>, end: End): (Option<Reg>, seq<Reg>) {
    if rest == [] then (None, rest)
    else match end
      case Front => (Some(rest[0]), rest[1..])
      case Back => (Some(rest[|rest| - 1]), rest[..|rest| - 1])
  }

  class RegSpanIter {
    var next: Reg
    var last: Reg

    ghost predicate Valid()
      reads this
    {
      next <= last
    }

    ghost function Remaining(): seq<Reg>
      requires Valid()
      reads this
    {
      Range(next, last)
    }

    /** Panics in the original when the span leaves the register indices. */
    constructor NewU16(start: Reg, len: U16)
      requires start + len < 0x8000
      ensures Valid() && Remaining() == Range(start, start + len)
    {
      next := start;
      last := start + len;
    }

    method LenAsU16() returns (n: U16)
      requires Valid()
      ensures n == |Remaining()|
    {
      n := last - next;
    }

    method Next() returns (r: Option<Reg>)
      requires Valid()
      modifies this
      ensures Valid()
      ensures (r, Remaining()) == Take(old(Remaining()), Front)
    {
      if next == last {
        return None;
      }
      r := Some(next);
      next := NextN(next, 1);
      assert Remaining() == old(Remaining())[1..];
    }

    method NextBack() returns (r: Option<Reg>)
      requires Valid()
      modifies this
      ensures Valid()
      ensures (r, Remaining()) == Take(old(Remaining()), Back)
    {
      if next == last {
        return None;
      }
      last := PrevN(last, 1);
      r := Some(last);
      assert Remaining() == old(Remaining())[..|old(Remaining())| - 1];
    }
  }

  // ----- runs of an iterator -------------------------------------------------------------

  /** What a run of calls has yielded from either end, in order of yielding, and what is left. */
  datatype Yielded = Yielded(front: seq<Reg>, back: seq<Reg>, rest: seq<Reg>)

  function Run(all: seq<Reg>, calls: seq<End>): Yielded {
    if calls == [] then Yielded([], [], all)
    else
      After(Run(all, calls[..|calls| - 1]), calls[|calls| - 1])
  }

  function After(y: Yielded, end: End): Yielded {
    var (r, rest) := Take(y.rest, end);
    match r
    case None => y
    case Some(reg) =>
      if end == Front then Yielded(y.front + [reg], y.back, rest)
      else Yielded(y.front, y.back + [reg], rest)
  }

  function Reversed(s: seq<Reg>): (t: seq<Reg>)
    ensures |t| == |s| && forall i :: 0 <= i < |s| ==> t[i] == s[|s| - 1 - i]
  {
    seq(|s|, i requires 0 <= i < |s| => s[|s| - 1 - i])
  }

  /** Any interleaving of `next` and `next_back` cuts the span in three: the front yields ascending,
      the rest, the back yields descending. No register is lost, repeated or invented, and the
      iterator ends after exactly as many yields as the span is long. */
  lemma {:induction false} RunPartitions(all: seq<Reg>, calls: seq<End>)
    ensures var y := Run(all, calls);
            && Together(y) == all
            && |y.front| + |y.back| == if |calls| < |all| then |calls| else |all|
  {
    if calls != [] {
      RunPartitions(all, calls[..|calls| - 1]);
      CallPartitions(Run(all, calls[..|calls| - 1]), calls[|calls| - 1]);
    }
  }

  /** What is left between the yields of the two ends, in the order of the span. */
  function Together(y: Yielded): seq<Reg> { y.front + y.rest + Reversed(y.back) }

  /** One call moves at most one register from the rest to the yields of its end. */
  lemma CallPartitions(y: Yielded, end: End)
    ensures Together(After(y, end)) == Together(y)
    ensures |After(y, end).rest| == if y.rest == [] then 0 else |y.rest| - 1
  {
    if y.rest != [] {
      if end == Front {
        MoveToFront(y.front, y.rest[0], y.rest[1..], Reversed(y.back));
        assert [y.rest[0]] + y.rest[1..] == y.rest;
      } else {
        var n := |y.rest| - 1;
        ReversedSnoc(y.back, y.rest[n]);
        MoveToBack(y.front, y.rest[..n], y.rest[n], Reversed(y.back));
        assert y.rest[..n] + [y.rest[n]] == y.rest;
      }
    }
  }

  lemma MoveToFront(a: seq<Reg>, r: Reg, b: seq<Reg>, c: seq<Reg>)
    ensures (a + [r]) + b + c == a + ([r] + b) + c
  {
  }

  lemma MoveToBack(a: seq<Reg>, b: seq<Reg>, r: Reg, c: seq<Reg>)
    ensures a + b + ([r] + c) == a + (b + [r]) + c
  {
  }

  lemma ReversedSnoc(s: seq<Reg>, r: Reg)
    ensures Reversed(s + [r]) == [r] + Reversed(s)
  {
  }

  // ----- spans that know their length ----------------------------------------------------

  datatype OutOfBounds = RegisterOutOfBounds

  /** `FixedRegSpan::new`: the head of the accepted span of `n` registers. */
  function FixedSpan(head: Reg, n: U16): Result<Reg, OutOfBounds> {
    if head >= NextN(head, n) then Err(RegisterOutOfBounds) else Ok(head)
  }

  /** `contains`, of fixed and of bounded spans. */
  predicate Contains(head: Reg, n: U16, reg: Reg) {
    if n == 0 then false
    else
      var max := NextN(head, n);
      head <= reg && reg < max
  }

  /** The wrapping comparison accepts exactly the non-empty spans that end below the last index: the
      end of the span, one past its last register, has to be an index too. */
  lemma FixedSpanAccepts(head: Reg, n: U16)
    ensures FixedSpan(head, n) == if 0 < n && head + n < 0x8000 then Ok(head) else Err(RegisterOutOfBounds)
  {
  }

  /** Over every span: containment is being yielded by the iterator, and a span that overflows the
      indices, over which no iterator exists, contains nothing. */
  lemma ContainsIffYielded(head: Reg, n: U16, reg: Reg)
    ensures Contains(head, n, reg) <==> head + n < 0x8000 && reg in Range(head, head + n)
  {
    if head + n < 0x8000 && head <= reg < head + n {
      assert Range(head, head + n)[reg - head] == reg;
    }
  }
}
