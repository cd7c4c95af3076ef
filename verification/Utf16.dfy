/**
 JavaScript strings as sequences of UTF-16 code units, and the two conversions
 between them and code points that the codec is wrapped in.
 */
module Utf16 {

  type Unit = u: int | 0 <= u < 0x10000
  type CodePoint = c: int | 0 <= c <= 0x10FFFF

  const MAX_CODE_POINT := 0x10FFFF

  predicate IsHigh(u: Unit) { 0xD800 <= u <= 0xDBFF }

  predicate IsLow(u: Unit) { 0xDC00 <= u <= 0xDFFF }

  // The code point of a surrogate pair.
  function Pair(high: Unit, low: Unit): (c: CodePoint)
    requires IsHigh(high) && IsLow(low)
    ensures 0x10000 <= c
  {
    (high - 0xD800) * 0x400 + (low - 0xDC00) + 0x10000
  }

  // Code points of a string; an unmatched surrogate stands for itself.
  function ToCodePoints(s: seq<Unit>): seq<CodePoint>
  {
    if s == [] then []
    else if |s| >= 2 && IsHigh(s[0]) && IsLow(s[1]) then [Pair(s[0], s[1])] + ToCodePoints(s[2..])
    else [s[0]] + ToCodePoints(s[1..])
  }

  // String.fromCodePoint on one code point.
  function Units(c: CodePoint): seq<Unit>
  {
    if c < 0x10000 then [c]
    else [0xD800 + (c - 0x10000) / 0x400, 0xDC00 + (c - 0x10000) % 0x400]
  }

  function FromCodePoints(cs: seq<CodePoint>): seq<Unit>
  {
    if cs == [] then [] else Units(cs[0]) + FromCodePoints(cs[1..])
  }

  // Reading code points and writing them back is the identity on every string,
  // also on strings with unmatched surrogates.
  lemma {:induction false} UnitsRoundTrip(s: seq<Unit>)
    ensures FromCodePoints(ToCodePoints(s)) == s
    decreases |s|
  {
    if s == [] {
    } else if |s| >= 2 && IsHigh(s[0]) && IsLow(s[1]) {
      UnitsRoundTrip(s[2..]);
      var c := Pair(s[0], s[1]);
      assert (c - 0x10000) / 0x400 == s[0] - 0xD800 && (c - 0x10000) % 0x400 == s[1] - 0xDC00;
      assert ToCodePoints(s)[1..] == ToCodePoints(s[2..]);
      assert [s[0], s[1]] + s[2..] == s;
    } else {
      UnitsRoundTrip(s[1..]);
      assert ToCodePoints(s)[1..] == ToCodePoints(s[1..]);
      assert [s[0]] + s[1..] == s;
    }
  }

  // The source's mask tests, written with division: `u & 0xFC00` keeps the top six bits.
  predicate TopBitsAreLow(u: Unit) { u / 0x400 == 0x37 }

  function Combine(high: Unit, low: Unit): int { high % 0x400 * 0x400 + low % 0x400 + 0x10000 }

  lemma MaskTests(high: Unit, low: Unit)
    ensures TopBitsAreLow(low) <==> IsLow(low)
    ensures IsHigh(high) && IsLow(low) ==> Combine(high, low) == Pair(high, low)
  {
  }

  // ucs2decode: one pass with a counter that steps back after an unmatched
  // high surrogate.
  // The code point at a position and the units it takes: a unit that is taken by mistake is
  // given back.
  method NextPoint(s: seq<Unit>, start: nat) returns (point: CodePoint, counter: nat)
    requires start < |s|
    ensures start < counter <= |s|
    ensures ToCodePoints(s[start..]) == [point] + ToCodePoints(s[counter..])
  {
    ghost var rest := s[start..];
    counter := start;
    var value := s[counter];
    point := value;
    counter := counter + 1;
    if IsHigh(value) && counter < |s| {
      var extra := s[counter];
      counter := counter + 1;
      MaskTests(value, extra);
      assert rest[1] == extra;
      if TopBitsAreLow(extra) {
        point := Combine(value, extra);
      } else {
        counter := counter - 1;
      }
    }
    assert rest[counter - start..] == s[counter..];
  }

  method Ucs2Decode(s: seq<Unit>) returns (output: seq<CodePoint>)
    ensures output == ToCodePoints(s)
  {
    output := [];
    var counter := 0;
    assert s[0..] == s;
    while counter < |s|
      invariant 0 <= counter <= |s|
      invariant ToCodePoints(s) == output + ToCodePoints(s[counter..])
    {
      hide ToCodePoints;
      ghost var before := output;
      var point, next := NextPoint(s, counter);
      output := output + [point];
      assert before + ([point] + ToCodePoints(s[next..])) == output + ToCodePoints(s[next..]);
      counter := next;
    }
  }
}
