// The base64 encoding of RFC 4648, section 4 (standard alphabet, '='
// padding), as produced by java.util.Base64.getEncoder(), with its decoder as
// the inverse.  Bytes are first cut into six-bit values (sextets), which are
// then spelled with the alphabet; the two layers are inverted separately.

module Base64 {
  import opened Wrappers
  import Utf8

  type byte = Utf8.byte

  /** A six-bit value, or Pad (64) for the padding character '='. */
  type Sextet = i: int | 0 <= i <= 64

  const Pad: Sextet := 64

  /** The alphabet: A-Z, a-z, 0-9, '+', '/', and '=' for padding. */
  function Symbol(i: Sextet): char {
    if i < 26 then ('A' as int + i) as char
    else if i < 52 then ('a' as int + i - 26) as char
    else if i < 62 then ('0' as int + i - 52) as char
    else if i == 62 then '+'
    else if i == 63 then '/'
    else '='
  }

  function Value(c: char): Option<Sextet> {
    if 'A' <= c <= 'Z' then Some(c as int - 'A' as int)
    else if 'a' <= c <= 'z' then Some(c as int - 'a' as int + 26)
    else if '0' <= c <= '9' then Some(c as int - '0' as int + 52)
    else if c == '+' then Some(62)
    else if c == '/' then Some(63)
    else if c == '=' then Some(Pad)
    else None
  }

  lemma ValueOfSymbol(i: Sextet)
    ensures Value(Symbol(i)) == Some(i)
  {
  }

  function Symbols(x: seq<Sextet>): (r: string)
    ensures |r| == |x|
    ensures forall i :: 0 <= i < |x| ==> r[i] == Symbol(x[i])
  {
    if x == [] then [] else [Symbol(x[0])] + Symbols(x[1..])
  }

  function Values(s: string): Option<seq<Sextet>> {
    if s == [] then Some([])
    else match (Value(s[0]), Values(s[1..]))
      case (Some(v), Some(rest)) => Some([v] + rest)
      case _ => None
  }

  lemma {:induction false} ValuesOfSymbols(x: seq<Sextet>)
    ensures Values(Symbols(x)) == Some(x)
  {
    if x != [] {
      var s := Symbols(x);
      assert s[0] == Symbol(x[0]) && s[1..] == Symbols(x[1..]);
      ValueOfSymbol(x[0]);
      ValuesOfSymbols(x[1..]);
      assert [x[0]] + x[1..] == x;
    }
  }

  /** Three bytes become four sextets. */
  function Block(a: byte, b: byte, c: byte): (r: seq<Sextet>)
    ensures |r| == 4 && Pad !in r
  {
    var x, y, z := a as int, b as int, c as int;
    [x / 4, x % 4 * 16 + y / 16, y % 16 * 4 + z / 64, z % 64]
  }

  /** Two final bytes become three sextets and one padding. */
  function TwoPadded(a: byte, b: byte): (r: seq<Sextet>)
    ensures |r| == 4
  {
    var x, y := a as int, b as int;
    [x / 4, x % 4 * 16 + y / 16, y % 16 * 4, Pad]
  }

  /** One final byte becomes two sextets and two paddings. */
  function OnePadded(a: byte): (r: seq<Sextet>)
    ensures |r| == 4
  {
    var x := a as int;
    [x / 4, x % 4 * 16, Pad, Pad]
  }

  function Sextets(b: seq<byte>): (r: seq<Sextet>)
    ensures r == [] <==> b == []
    decreases |b|
  {
    if |b| >= 3 then Block(b[0], b[1], b[2]) + Sextets(b[3..])
    else if |b| == 2 then TwoPadded(b[0], b[1])
    else if |b| == 1 then OnePadded(b[0])
    else []
  }

  function Encode(b: seq<byte>): (r: string)
    ensures r == [] <==> b == []
  {
    Symbols(Sextets(b))
  }

  /** One group of four sextets; padding may only end the text. */
  function Group(g: seq<Sextet>, last: bool): Option<seq<byte>>
    requires |g| == 4
  {
    var a, b, c, d := g[0] as int, g[1] as int, g[2] as int, g[3] as int;
    if a == Pad || b == Pad then None
    else
      var high := (a * 4 + b / 16) as byte;
      if c != Pad && d != Pad then
        Some([high, (b % 16 * 16 + c / 4) as byte, (c % 4 * 64 + d) as byte])
      else if c != Pad && d == Pad && last && c % 4 == 0 then
        Some([high, (b % 16 * 16 + c / 4) as byte])
      else if c == Pad && d == Pad && last && b % 16 == 0 then
        Some([high])
      else None
  }

  function Join(first: Option<seq<byte>>, others: Option<seq<byte>>): Option<seq<byte>> {
    if first.Some? && others.Some? then Some(first.value + others.value) else None
  }

  function Unsextets(x: seq<Sextet>): Option<seq<byte>>
    decreases |x|
  {
    if x == [] then Some([])
    else if |x| < 4 then None
    else Join(Group(x[..4], |x| == 4), Unsextets(x[4..]))
  }

  function Decode(s: string): Option<seq<byte>> {
    match Values(s)
    case None => None
    case Some(x) => Unsextets(x)
  }

  lemma GroupOfThree(a: byte, b: byte, c: byte, last: bool)
    ensures Group(Block(a, b, c), last) == Some([a, b, c])
  {
    var x, y, z := a as int, b as int, c as int;
    assert (x % 4 * 16 + y / 16) / 16 == x % 4 && (x % 4 * 16 + y / 16) % 16 == y / 16;
    assert (y % 16 * 4 + z / 64) / 4 == y % 16 && (y % 16 * 4 + z / 64) % 4 == z / 64;
  }

  lemma GroupOfTwo(a: byte, b: byte)
    ensures Group(TwoPadded(a, b), true) == Some([a, b])
  {
    var x, y := a as int, b as int;
    assert (x % 4 * 16 + y / 16) / 16 == x % 4 && (x % 4 * 16 + y / 16) % 16 == y / 16;
  }

  lemma GroupOfOne(a: byte)
    ensures Group(OnePadded(a), true) == Some([a])
  {
  }

  lemma UnsextetsFirst(g: seq<Sextet>, rest: seq<Sextet>)
    requires |g| == 4
    ensures Unsextets(g + rest) == Join(Group(g, rest == []), Unsextets(rest))
  {
    var x := g + rest;
    assert x[..4] == g && x[4..] == rest;
  }

  lemma UnsextetsLast(g: seq<Sextet>)
    requires |g| == 4
    ensures Unsextets(g) == Group(g, true)
  {
    UnsextetsFirst(g, []);
    assert g + [] == g;
    if Group(g, true).Some? {
      assert Group(g, true).value + [] == Group(g, true).value;
    }
  }

  /** Cutting into sextets is undone by reassembling them. */
  lemma {:induction false} UnsextetsOfSextets(b: seq<byte>)
    ensures Unsextets(Sextets(b)) == Some(b)
    decreases |b|
  {
    if |b| >= 3 {
      var rest := Sextets(b[3..]);
      UnsextetsOfSextets(b[3..]);
      UnsextetsFirst(Block(b[0], b[1], b[2]), rest);
      GroupOfThree(b[0], b[1], b[2], rest == []);
      assert [b[0], b[1], b[2]] + b[3..] == b;
    } else if |b| == 2 {
      UnsextetsLast(TwoPadded(b[0], b[1]));
      GroupOfTwo(b[0], b[1]);
      assert [b[0], b[1]] == b;
    } else if |b| == 1 {
      UnsextetsLast(OnePadded(b[0]));
      GroupOfOne(b[0]);
      assert [b[0]] == b;
    }
  }

  /** Decoding inverts encoding. */
  lemma DecodeEncode(b: seq<byte>)
    ensures Decode(Encode(b)) == Some(b)
  {
    ValuesOfSymbols(Sextets(b));
    UnsextetsOfSextets(b);
  }

  /** Every started group of three bytes takes four characters. */
  lemma {:induction false} EncodeLength(b: seq<byte>)
    ensures |Encode(b)| == 4 * ((|b| + 2) / 3)
    decreases |b|
  {
    if |b| >= 3 {
      EncodeLength(b[3..]);
      assert (|b| - 3 + 2) / 3 + 1 == (|b| + 2) / 3;
    }
  }

  /** Padding appears only in the last two positions, and only when |b| is not a multiple of 3. */
  lemma {:induction false} PaddingAtEnd(b: seq<byte>)
    ensures forall i :: 0 <= i < |Sextets(b)| && Sextets(b)[i] == Pad ==> |b| % 3 != 0 && |Sextets(b)| - 2 <= i
    decreases |b|
  {
    if |b| >= 3 {
      PaddingAtEnd(b[3..]);
      var x := Sextets(b);
      var rest := Sextets(b[3..]);
      assert x == Block(b[0], b[1], b[2]) + rest;
      assert x[4..] == rest;
      forall i | 0 <= i < |x| && x[i] == Pad ensures |b| % 3 != 0 && |x| - 2 <= i {
        assert i >= 4 && rest[i - 4] == Pad;
      }
    }
  }
}
