/** The text interner built on an ordered map, and its order
    (crates/collections/src/string_interner.rs, crates/collections/src/string_interner/detail.rs). */
module StringInterners {
  import opened InverseIndex
  import opened Words
  import opened Wrappers

  /** The bytes of a `str`. */
  type Str = seq<U8>

  datatype InternHint = NoHint | LikelyExists | LikelyNew

  const MAX_SYMBOLS: nat := 0x1_0000_0000

  class StringInterner {
    var string2symbol: map<Str, nat>
    var strings: seq<Str>

    ghost function State(): Table<Str>
      reads this
    {
      Table(string2symbol, strings)
    }

    /** The map and the vector are inverse, and every symbol fits `u32`. */
    ghost predicate Valid()
      reads this
    {
      Inverse(State()) && |strings| <= MAX_SYMBOLS
    }

    /** The original panics when a new string would need a symbol beyond `u32`. */
    ghost predicate HasRoomFor(text: Str)
      reads this
    {
      text in string2symbol || |strings| < MAX_SYMBOLS
    }

    constructor ()
      ensures Valid() && State() == Empty() && strings == []
    {
      string2symbol, strings := map[], [];
    }

    method GetOrInternWithHint(text: Str, hint: InternHint) returns (symbol: nat)
      requires Valid() && HasRoomFor(text)
      modifies this
      ensures Valid()
      ensures (symbol, State()) == Intern(old(State()), text)
      ensures symbol < |strings| && strings[symbol] == text && old(strings) <= strings
      ensures strings == if text in old(strings) then old(strings) else old(strings) + [text]
    {
      InternKeeps(State(), text);
      if hint == LikelyExists {
        symbol := GetOrInternHintExisting(text);
      } else {
        symbol := GetOrInternHintNew(text);
      }
    }

    /** Allocates the key first and looks at the entry of the map. */
    method GetOrInternHintNew(text: Str) returns (symbol: nat)
      requires Valid() && HasRoomFor(text)
      modifies this
      ensures Valid()
      ensures (symbol, State()) == Intern(old(State()), text)
    {
      InternKeeps(State(), text);
      if text !in string2symbol {
        symbol := |strings|;
        strings := strings + [text];
        string2symbol := string2symbol[text := symbol];
      } else {
        symbol := string2symbol[text];
      }
    }

    /** Looks the string up first and interns it only if that fails. */
    method GetOrInternHintExisting(text: Str) returns (symbol: nat)
      requires Valid() && HasRoomFor(text)
      modifies this
      ensures Valid()
      ensures (symbol, State()) == Intern(old(State()), text)
    {
      if text in string2symbol {
        symbol := string2symbol[text];
      } else {
        symbol := InternNew(text);
      }
    }

    /** `intern`: panics if the string already exists. */
    method InternNew(text: Str) returns (symbol: nat)
      requires Valid() && text !in string2symbol && |strings| < MAX_SYMBOLS
      modifies this
      ensures Valid()
      ensures (symbol, State()) == Intern(old(State()), text)
    {
      InternKeeps(State(), text);
      symbol := |strings|;
      var existed := text in string2symbol;
      string2symbol := string2symbol[text := symbol];
      assert !existed;
      strings := strings + [text];
    }

    method Get(text: Str) returns (r: Option<nat>)
      requires Valid()
      ensures r.Some? <==> text in strings
      ensures r.Some? ==> r.value < |strings| && strings[r.value] == text
      ensures r.Some? <==> text in string2symbol
      ensures r.Some? ==> r.value == string2symbol[text]
    {
      if text in string2symbol {
        r := Some(string2symbol[text]);
      } else {
        r := None;
      }
    }

    method Resolve(symbol: nat) returns (r: Option<Str>)
      ensures r == if symbol < |strings| then Some(strings[symbol]) else None
      ensures Valid() ==>
                forall text :: r == Some(text) <==> text in string2symbol && string2symbol[text] == symbol
    {
      r := if symbol < |strings| then Some(strings[symbol]) else None;
    }
  }

  // ----- the order of the map's keys -----------------------------------------------------

  datatype Ordering = Less | Equal | Greater {
    function Reverse(): Ordering {
      match this
      case Less => Greater
      case Equal => Equal
      case Greater => Less
    }
  }

  function Compare(a: int, b: int): Ordering {
    if a < b then Less else if a > b then Greater else Equal
  }

  /** The order of byte slices: that of the first difference, or of the lengths. */
  function Lexicographic(l: Str, r: Str): Ordering {
    if l == [] || r == [] then Compare(|l|, |r|)
    else if l[0] != r[0] then Compare(l[0], r[0])
    else Lexicographic(l[1..], r[1..])
  }

  /** Shorter strings first, strings of one length in lexicographic order. */
  function LenOrder(l: Str, r: Str): Ordering {
    if |l| != |r| then Compare(|l|, |r|) else Lexicographic(l, r)
  }

  /** At `k` the two differ for the first time, and the left byte is the smaller. */
  predicate IsFirstLess(l: Str, r: Str, k: nat) {
    k < |l| && k < |r| && l[k] < r[k] && forall i :: 0 <= i < k ==> l[i] == r[i]
  }

  lemma {:induction false} LexicographicMeaning(l: Str, r: Str)
    requires |l| == |r|
    ensures Lexicographic(l, r) == Less <==> exists k: nat :: IsFirstLess(l, r, k)
  {
    if l != [] {
      if l[0] == r[0] {
        LexicographicMeaning(l[1..], r[1..]);
        if k: nat :| IsFirstLess(l, r, k) {
          FirstLessShifts(l, r, k - 1);
        }
        if k: nat :| IsFirstLess(l[1..], r[1..], k) {
          FirstLessShifts(l, r, k);
        }
      } else if l[0] < r[0] {
        assert IsFirstLess(l, r, 0);
      }
    }
  }

  lemma FirstLessShifts(l: Str, r: Str, k: nat)
    requires l != [] && r != [] && l[0] == r[0]
    ensures IsFirstLess(l, r, k + 1) <==> IsFirstLess(l[1..], r[1..], k)
  {
    if IsFirstLess(l[1..], r[1..], k) {
      assert forall i :: 0 < i <= k ==> l[i] == l[1..][i - 1] && r[i] == r[1..][i - 1];
    }
  }

  /** Shorter strings come first; of two of one length the one with the smaller byte at the first
      difference. */
  lemma LenOrderMeaning(l: Str, r: Str)
    ensures LenOrder(l, r) == Less <==> |l| < |r| || (|l| == |r| && exists k: nat :: IsFirstLess(l, r, k))
  {
    if |l| == |r| {
      LexicographicMeaning(l, r);
    }
  }

  /** `LenOrderStr::cmp`, which compares short strings byte by byte. */
  method Cmp(l: Str, r: Str) returns (o: Ordering)
    ensures o == LenOrder(l, r)
    ensures o == Equal <==> l == r
    ensures o == Less <==> |l| < |r| || (|l| == |r| && exists k: nat :: IsFirstLess(l, r, k))
    ensures o == Greater <==> |r| < |l| || (|r| == |l| && exists k: nat :: IsFirstLess(r, l, k))
  {
    LenOrderMeaning(l, r);
    LenOrderMeaning(r, l);
    LenOrderIsTotalOrder(l, r, r);
    var lengths := Compare(|l|, |r|);
    if lengths != Equal {
      return lengths;
    }
    if |l| < 8 {
      for i := 0 to |l|
        invariant Lexicographic(l, r) == Lexicographic(l[i..], r[i..])
      {
        var bytes := Compare(l[i], r[i]);
        if bytes != Equal {
          return bytes;
        }
        assert l[i..][1..] == l[i + 1..] && r[i..][1..] == r[i + 1..];
      }
      return Equal;
    } else {
      return Lexicographic(l, r);
    }
  }

  lemma {:induction false} LexicographicLaws(a: Str, b: Str)
    ensures Lexicographic(a, b) == Equal <==> a == b
    ensures Lexicographic(b, a) == Lexicographic(a, b).Reverse()
  {
    if a != [] && b != [] && a[0] == b[0] {
      LexicographicLaws(a[1..], b[1..]);
      assert a == [a[0]] + a[1..] && b == [b[0]] + b[1..];
    }
  }

  lemma {:induction false} LexicographicTransitive(a: Str, b: Str, c: Str)
    requires Lexicographic(a, b) == Less && Lexicographic(b, c) == Less
    ensures Lexicographic(a, c) == Less
  {
    if a != [] && b != [] && c != [] && a[0] == b[0] == c[0] {
      LexicographicTransitive(a[1..], b[1..], c[1..]);
    }
  }

  /** The order is total: it is `Equal` exactly on equal strings, reversing the operands reverses
      it, and it is transitive. */
  lemma LenOrderIsTotalOrder(a: Str, b: Str, c: Str)
    ensures LenOrder(a, b) == Equal <==> a == b
    ensures LenOrder(b, a) == LenOrder(a, b).Reverse()
    ensures LenOrder(a, b) == Less && LenOrder(b, c) == Less ==> LenOrder(a, c) == Less
  {
    LexicographicLaws(a, b);
    if |a| == |b| == |c| && Lexicographic(a, b) == Less && Lexicographic(b, c) == Less {
      LexicographicTransitive(a, b, c);
    }
  }
}
