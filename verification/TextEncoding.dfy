/** UTF-8, the encoding of Motoko texts (`encodeUtf8` in crates/debugger/src/source_code_in_moc/prim.mo). */
module TextEncoding {
  import opened Words

  /** The bytes of one character. */
  function EncodeChar(c: char): (bs: seq<U8>) {
    var n := c as int;
    if n < 0x80 then [n]
    else if n < 0x800 then [0xC0 + n / 0x40, 0x80 + n % 0x40]
    else if n < 0x1_0000 then [0xE0 + n / 0x40 / 0x40, 0x80 + n / 0x40 % 0x40, 0x80 + n % 0x40]
    else [0xF0 + n / 0x40 / 0x40 / 0x40, 0x80 + n / 0x40 / 0x40 % 0x40, 0x80 + n / 0x40 % 0x40, 0x80 + n % 0x40]
  }

  type Encoder = char -> seq<U8>

  /** The bytes of a text, character by character. */
  function Encoded(enc: Encoder, t: string): seq<U8> {
    if t == [] then [] else enc(t[0]) + Encoded(enc, t[1..])
  }

  function Utf8(t: string): seq<U8> { Encoded(EncodeChar, t) }

  predicate IsAsciiChar(c: char) { c as int < 0x80 }

  predicate IsAscii(t: string) {
    forall i :: 0 <= i < |t| ==> IsAsciiChar(t[i])
  }

  predicate NoAscii(t: string) {
    forall i :: 0 <= i < |t| ==> !IsAsciiChar(t[i])
  }

  // ----- bytes determine the text ----------------------------------------------------------

  /** No character's bytes begin with those of another. */
  ghost predicate IsPrefixFree(enc: Encoder) {
    forall c, d :: enc(c) <= enc(d) ==> c == d
  }

  lemma Utf8IsPrefixFree()
    ensures IsPrefixFree(EncodeChar)
  {
    forall c, d | EncodeChar(c) <= EncodeChar(d)
      ensures c == d
    {
      PrefixDetermines(c as int, d as int, EncodeChar(c), EncodeChar(d));
    }
  }

  /** The four forms of UTF-8: the shortest that holds the code point, with the high bits of the first
      byte telling the length, and six bits of the code point in each further byte. */
  lemma EncodeCharMeaning(c: char)
    ensures var n, bs := c as int, EncodeChar(c);
            && |bs| == (if n < 0x80 then 1 else if n < 0x800 then 2 else if n < 0x1_0000 then 3 else 4)
            && (forall i :: 0 < i < |bs| ==> 0x80 <= bs[i] < 0xC0)
            && (|bs| == 1 ==> bs[0] == n)
            && (|bs| == 2 ==> 0xC0 <= bs[0] < 0xE0 && n == (bs[0] as int - 0xC0) * 0x40 + (bs[1] as int - 0x80))
            && (|bs| == 3 ==>
                  && 0xE0 <= bs[0] < 0xF0
                  && n == (bs[0] as int - 0xE0) * 0x1000 + (bs[1] as int - 0x80) * 0x40 + (bs[2] as int - 0x80))
            && (|bs| == 4 ==>
                  && 0xF0 <= bs[0] < 0xF8
                  && n == (bs[0] as int - 0xF0) * 0x4_0000 + (bs[1] as int - 0x80) * 0x1000
                          + (bs[2] as int - 0x80) * 0x40 + (bs[3] as int - 0x80))
  {
  }

  /** The first byte tells the number of bytes, and together they tell the character. */
  lemma PrefixDetermines(n: int, m: int, a: seq<U8>, b: seq<U8>)
    requires 0 <= n < 0x11_0000 && 0 <= m < 0x11_0000 && a <= b
    requires IsCode(n, a) && IsCode(m, b)
    ensures n == m
  {
    assert a[0] == b[0];
    assert |a| == |b|;
    assert forall i :: 0 <= i < |a| ==> a[i] == b[i];
  }

  /** Some bytes are those of a code point: the lengths, the first byte and the value. */
  ghost predicate IsCode(n: int, bs: seq<U8>) {
    && 1 <= |bs| <= 4
    && (|bs| == 1 <==> bs[0] < 0x80) && (|bs| <= 2 <==> bs[0] < 0xE0) && (|bs| <= 3 <==> bs[0] < 0xF0)
    && n == CodeOf(bs[0], bs)
  }

  function CodeOf(first: int, bs: seq<U8>): int
    requires 1 <= |bs| <= 4
  {
    match |bs|
    case 1 => first
    case 2 => Append(first - 0xC0, bs[1])
    case 3 => Append(Append(first - 0xE0, bs[1]), bs[2])
    case _ => Append(Append(Append(first - 0xF0, bs[1]), bs[2]), bs[3])
  }

  /** Six more bits. */
  function Append(n: int, byte: int): int { n * 0x40 + (byte - 0x80) }

  /** Bytes determine the text. */
  lemma {:induction false} EncodedInjective(enc: Encoder, s: string, t: string)
    requires IsPrefixFree(enc) && forall c :: enc(c) != []
    requires Encoded(enc, s) == Encoded(enc, t)
    ensures s == t
  {
    if s != [] && t != [] {
      SameFirst(enc, s[0], Encoded(enc, s[1..]), t[0], Encoded(enc, t[1..]));
      EncodedInjective(enc, s[1..], t[1..]);
      assert s == [s[0]] + s[1..] && t == [t[0]] + t[1..];
    }
  }

  lemma SameFirst(enc: Encoder, c: char, a: seq<U8>, d: char, b: seq<U8>)
    requires IsPrefixFree(enc) && enc(c) + a == enc(d) + b
    ensures c == d && a == b
  {
    if |enc(c)| <= |enc(d)| {
      PrefixOfSame(enc(c), a, enc(d), b);
    } else {
      PrefixOfSame(enc(d), b, enc(c), a);
    }
    var all := enc(c) + a;
    assert all[|enc(c)|..] == a && all[|enc(d)|..] == b;
  }

  lemma PrefixOfSame(p: seq<U8>, a: seq<U8>, q: seq<U8>, b: seq<U8>)
    requires p + a == q + b && |p| <= |q|
    ensures p <= q
  {
    var all := p + a;
    assert all[..|p|] == p && (q + b)[..|p|] == q[..|p|];
  }

  lemma Utf8Injective(s: string, t: string)
    requires Utf8(s) == Utf8(t)
    ensures s == t
  {
    Utf8IsPrefixFree();
    assert forall c :: EncodeChar(c) != [];
    EncodedInjective(EncodeChar, s, t);
  }

  // ----- the bytes of a text, one character for each -----------------------------------------

  /** One character for each byte. */
  function Chars(bytes: seq<U8>): (s: string)
    ensures |s| == |bytes| && forall i :: 0 <= i < |s| ==> s[i] == bytes[i] as char
  {
    seq(|bytes|, i requires 0 <= i < |bytes| => bytes[i] as char)
  }

  lemma CharsConcat(a: seq<U8>, b: seq<U8>)
    ensures Chars(a + b) == Chars(a) + Chars(b)
  {
  }

  /** ASCII characters are their own single bytes, all others take several bytes beyond ASCII. */
  ghost predicate KeepsAscii(enc: Encoder) {
    forall c :: if IsAsciiChar(c) then Chars(enc(c)) == [c] else |enc(c)| >= 2 && NoAscii(Chars(enc(c)))
  }

  lemma Utf8KeepsAscii()
    ensures KeepsAscii(EncodeChar)
  {
  }

  lemma Associative(a: seq<U8>, b: seq<U8>, c: seq<U8>)
    ensures a + (b + c) == (a + b) + c
  {
  }

  lemma {:induction false} EncodedConcat(enc: Encoder, s: string, t: string)
    ensures Encoded(enc, s + t) == Encoded(enc, s) + Encoded(enc, t)
  {
    if s == [] {
      assert s + t == t;
    } else {
      EncodedConcat(enc, s[1..], t);
      var all := s + t;
      assert all[0] == s[0] && all[1..] == s[1..] + t;
      Associative(enc(s[0]), Encoded(enc, s[1..]), Encoded(enc, t));
    }
  }

  lemma {:induction false} BytesBeyondAscii(enc: Encoder, t: string)
    requires KeepsAscii(enc) && NoAscii(t)
    ensures |Encoded(enc, t)| >= 2 * |t| && NoAscii(Chars(Encoded(enc, t)))
  {
    if t != [] {
      BytesBeyondAscii(enc, t[1..]);
      CharsConcat(enc(t[0]), Encoded(enc, t[1..]));
      assert NoAscii(Chars(enc(t[0])));
    }
  }

  /** The byte that follows as many bytes as there are characters beyond ASCII in front. */
  lemma ByteInPrefix(enc: Encoder, t: string, k: nat)
    requires KeepsAscii(enc) && 0 < k <= |t| && NoAscii(t[..k])
    ensures k < |Encoded(enc, t)| && !IsAsciiChar(Chars(Encoded(enc, t))[k])
  {
    BytesBeyondAscii(enc, t[..k]);
    EncodedConcat(enc, t[..k], t[k..]);
    assert t[..k] + t[k..] == t;
    CharsConcat(Encoded(enc, t[..k]), Encoded(enc, t[k..]));
  }

  /** A text that begins beyond ASCII and reads like its own bytes goes on beyond ASCII. */
  lemma {:induction false} StaysBeyondAscii(enc: Encoder, t: string, x: string, y: string, i: nat)
    requires KeepsAscii(enc) && t != [] && !IsAsciiChar(t[0])
    requires t + x == Chars(Encoded(enc, t)) + y && i <= |t|
    ensures NoAscii(t[..i])
  {
    if i > 1 {
      StaysBeyondAscii(enc, t, x, y, i - 1);
      ByteInPrefix(enc, t, i - 1);
      assert (t + x)[i - 1] == t[i - 1];
    }
  }

  /** What stands where the first text ends and the longer second goes on. */
  lemma AtSeam(t: string, x: string, b: string, y: string)
    requires t + x == b + y && |t| < |b|
    ensures x != [] && x[0] == b[|t|]
  {
    assert |t + x| > |t|;
    assert (t + x)[|t|] == x[0] && (b + y)[|t|] == b[|t|];
  }

  /** ... and so could never end. */
  lemma AsciiFirst(enc: Encoder, t: string, x: string, y: string)
    requires KeepsAscii(enc) && t != [] && (x == [] || IsAsciiChar(x[0]))
    requires t + x == Chars(Encoded(enc, t)) + y
    ensures IsAsciiChar(t[0])
  {
    if !IsAsciiChar(t[0]) {
      StaysBeyondAscii(enc, t, x, y, |t|);
      assert t[..|t|] == t;
      ByteInPrefix(enc, t, |t|);
      AtSeam(t, x, Chars(Encoded(enc, t)), y);
    }
  }

  lemma DropSame(t: string, x: string, b: string, y: string)
    requires t != [] && b != [] && t + x == b + y
    ensures t[1..] + x == b[1..] + y
  {
    assert (t + x)[1..] == t[1..] + x && (b + y)[1..] == b[1..] + y;
  }

  lemma DropFirst(enc: Encoder, t: string, x: string, y: string)
    requires t != [] && Chars(enc(t[0])) == [t[0]]
    requires t + x == Chars(Encoded(enc, t)) + y
    ensures t[1..] + x == Chars(Encoded(enc, t[1..])) + y
  {
    var b, rest := Chars(Encoded(enc, t)), Chars(Encoded(enc, t[1..]));
    CharsConcat(enc(t[0]), Encoded(enc, t[1..]));
    assert b == [t[0]] + rest;
    DropSame(t, x, b, y);
  }

  /** Reading the bytes of a text as characters gives the text only if it is ASCII, even if more text
      follows, as long as that begins with an ASCII character. */
  lemma {:induction false} TextEnds(enc: Encoder, t: string, x: string, y: string)
    requires KeepsAscii(enc) && (x == [] || IsAsciiChar(x[0]))
    requires t + x == Chars(Encoded(enc, t)) + y
    ensures IsAscii(t) && x == y
  {
    if t == [] {
      assert x == t + x && y == Chars(Encoded(enc, t)) + y;
    } else {
      AsciiFirst(enc, t, x, y);
      DropFirst(enc, t, x, y);
      TextEnds(enc, t[1..], x, y);
      assert forall i :: 0 < i < |t| ==> t[i] == t[1..][i - 1];
    }
  }

  lemma {:induction false} AsciiChars(enc: Encoder, t: string)
    requires KeepsAscii(enc) && IsAscii(t)
    ensures Chars(Encoded(enc, t)) == t
  {
    if t != [] {
      assert forall i :: 0 <= i < |t[1..]| ==> t[1..][i] == t[i + 1];
      AsciiChars(enc, t[1..]);
      CharsConcat(enc(t[0]), Encoded(enc, t[1..]));
      assert t == [t[0]] + t[1..];
    }
  }

  /** Reading the bytes of a text as characters gives the text exactly if it is ASCII. */
  lemma CharsOfUtf8(t: string)
    ensures Chars(Utf8(t)) == t <==> IsAscii(t)
  {
    Utf8KeepsAscii();
    if Chars(Utf8(t)) == t {
      assert t + "" == Chars(Utf8(t)) + "";
      TextEnds(EncodeChar, t, "", "");
    }
    if IsAscii(t) {
      AsciiChars(EncodeChar, t);
    }
  }
}
